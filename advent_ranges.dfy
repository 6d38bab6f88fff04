/**
 * Day 4 of src/advent.rs: section assignments "a-b,c-d", the containment
 * check and `four1`.
 */
module AdventRanges {
  import opened Wrappers
  import opened RustStr
  import opened RustSlice

  type Range = (nat, nat)

  /** The numbers of one "a-b" piece; an unparsable number panics on `unwrap`. */
  function ParseNumbers(words: seq<string>): (r: Option<seq<nat>>)
    ensures r.Some? ==> |r.value| == |words|
    ensures r.Some? ==> forall i :: 0 <= i < |words| ==> ParseU64(words[i]) == Some(r.value[i])
  {
    if |words| == 0 then Some([])
    else
      var n :- ParseU64(words[0]);
      var rest :- ParseNumbers(words[1..]);
      Some([n] + rest)
  }

  /** One "a-b" piece; the assertion that there are two numbers panics otherwise. */
  function ParseRange(piece: string): Option<Range> {
    var nums :- ParseNumbers(Split(piece, '-'));
    if |nums| != 2 then None else Some((nums[0], nums[1]))
  }

  function ParseRanges(pieces: seq<string>): (r: Option<seq<Range>>)
    ensures r.Some? ==> |r.value| == |pieces|
  {
    if |pieces| == 0 then Some([])
    else
      var range :- ParseRange(pieces[0]);
      var rest :- ParseRanges(pieces[1..]);
      Some([range] + rest)
  }

  /** `transform_example`: the comma-separated ranges of a line. */
  function TransformExample(example: string): (r: Option<seq<Range>>)
    ensures r.Some? ==> |r.value| == |Split(example, ',')|
  {
    ParseRanges(Split(example, ','))
  }

  /** A range written "a-b". */
  function FormatRange(range: Range): string {
    Decimal(range.0) + "-" + Decimal(range.1)
  }

  /** Ranges written as a line of the input. */
  function FormatRanges(ranges: seq<Range>): string
    requires |ranges| >= 1
  {
    Join(seq(|ranges|, i requires 0 <= i < |ranges| => FormatRange(ranges[i])), ',')
  }

  predicate Fits(ranges: seq<Range>) {
    forall i :: 0 <= i < |ranges| ==> ranges[i].0 <= U64_MAX && ranges[i].1 <= U64_MAX
  }

  lemma DigitsHaveNo(s: string, c: char)
    requires AllDigits(s) && !IsDigit(c)
    ensures c !in s
  {
  }

  lemma ParseTwoNumbers(a: string, b: string, x: nat, y: nat)
    requires ParseU64(a) == Some(x) && ParseU64(b) == Some(y)
    ensures ParseNumbers([a, b]) == Some([x, y])
  {
    assert [a, b][1..] == [b];
    assert [b][1..] == [];
    assert ParseNumbers([]) == Some([]);
    assert [y] + [] == [y];
    assert ParseNumbers([b]) == Some([y]);
    assert [x] + [y] == [x, y];
  }

  lemma ParseFormatRange(range: Range)
    requires range.0 <= U64_MAX && range.1 <= U64_MAX
    ensures ParseRange(FormatRange(range)) == Some(range)
  {
    var a, b := Decimal(range.0), Decimal(range.1);
    DigitsHaveNo(a, '-');
    DigitsHaveNo(b, '-');
    SplitFirst(a, '-', b);
    SplitWithout(b, '-');
    assert Split(FormatRange(range), '-') == [a, b];
    ParseDecimal(range.0);
    ParseDecimal(range.1);
    ParseTwoNumbers(a, b, range.0, range.1);
  }

  lemma {:induction false} ParseFormatRanges(texts: seq<string>, ranges: seq<Range>)
    requires |texts| == |ranges| && Fits(ranges)
    requires forall i :: 0 <= i < |texts| ==> texts[i] == FormatRange(ranges[i])
    ensures ParseRanges(texts) == Some(ranges)
    decreases |texts|
  {
    if |texts| > 0 {
      ParseFormatRange(ranges[0]);
      ParseFormatRanges(texts[1..], ranges[1..]);
      assert ranges == [ranges[0]] + ranges[1..];
    }
  }

  /** Parsing a line written from ranges gives the ranges back. */
  lemma TransformFormatted(ranges: seq<Range>)
    requires |ranges| >= 1 && Fits(ranges)
    ensures TransformExample(FormatRanges(ranges)) == Some(ranges)
  {
    var texts := seq(|ranges|, i requires 0 <= i < |ranges| => FormatRange(ranges[i]));
    forall t | t in texts
      ensures ',' !in t
    {
      var i :| 0 <= i < |texts| && texts[i] == t;
      DigitsHaveNo(Decimal(ranges[i].0), ',');
      DigitsHaveNo(Decimal(ranges[i].1), ',');
    }
    SplitJoin(texts, ',');
    ParseFormatRanges(texts, ranges);
  }

  /** `first_contains_second`. */
  function FirstContainsSecond(ranges: seq<Range>): bool
    requires |ranges| == 2
  {
    ranges[0].0 <= ranges[1].0 && ranges[0].1 >= ranges[1].1
  }

  predicate InRange(x: nat, range: Range) {
    range.0 <= x <= range.1
  }

  /** For a non-empty second range, the check is containment of the section sets. */
  lemma FirstContainsSecondIffSubset(ranges: seq<Range>)
    requires |ranges| == 2 && ranges[1].0 <= ranges[1].1
    ensures FirstContainsSecond(ranges) <==> forall x :: InRange(x, ranges[1]) ==> InRange(x, ranges[0])
  {
    if forall x :: InRange(x, ranges[1]) ==> InRange(x, ranges[0]) {
      assert InRange(ranges[1].0, ranges[1]);
      assert InRange(ranges[1].1, ranges[1]);
    }
  }

  /** Either range contains the other. */
  predicate EitherContains(ranges: seq<Range>)
    requires |ranges| == 2
  {
    FirstContainsSecond(ranges) || FirstContainsSecond(Reversed(ranges))
  }

  lemma EitherContainsMeaning(ranges: seq<Range>)
    requires |ranges| == 2
    ensures EitherContains(ranges) <==>
      (ranges[0].0 <= ranges[1].0 && ranges[1].1 <= ranges[0].1)
      || (ranges[1].0 <= ranges[0].0 && ranges[0].1 <= ranges[1].1)
  {
  }

  /**
   * `is_fully_contained`: checks the ranges both ways round, reversing the
   * vector in place; a vector of any other length than two panics in the
   * first check, before anything changes.
   */
  method IsFullyContained(ranges: array<Range>) returns (r: Option<bool>)
    modifies ranges
    ensures ranges.Length != 2 ==> r.None? && ranges[..] == old(ranges[..])
    ensures ranges.Length == 2 ==> r == Some(EitherContains(old(ranges[..])))
                                   && ranges[..] == Reversed(old(ranges[..]))
  {
    if ranges.Length != 2 {
      return None;
    }
    var first := FirstContainsSecond(ranges[..]);
    Reverse(ranges);
    var second := FirstContainsSecond(ranges[..]);
    return Some(first || second);
  }

  /** The per-line results of `four1`. */
  function ContainedLines(lines: seq<string>): Option<seq<bool>> {
    if |lines| == 0 then Some([])
    else
      var ranges :- TransformExample(lines[0]);
      if |ranges| != 2 then None
      else
        var rest :- ContainedLines(lines[1..]);
        Some([EitherContains(ranges)] + rest)
  }

  function CountTrue(bs: seq<bool>): (r: nat)
    ensures r <= |bs|
  {
    if |bs| == 0 then 0 else (if bs[0] then 1 else 0) + CountTrue(bs[1..])
  }

  /** `four1` with the file's text as input: the lines where one range contains the other. */
  function FourOne(input: string): Option<nat> {
    var results :- ContainedLines(Split(Trim(input), '\n'));
    Some(CountTrue(results))
  }

  /** `four1` counts at most one per line. */
  lemma {:induction false} ContainedLinesLength(lines: seq<string>)
    ensures ContainedLines(lines).Some? ==> |ContainedLines(lines).value| == |lines|
    decreases |lines|
  {
    if |lines| > 0 {
      ContainedLinesLength(lines[1..]);
    }
  }

  lemma FourOneBound(input: string)
    ensures FourOne(input).Some? ==> FourOne(input).value <= |Split(Trim(input), '\n')|
  {
    ContainedLinesLength(Split(Trim(input), '\n'));
  }
}
