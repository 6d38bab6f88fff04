/**
 * Day 1 of src/advent.rs (`one2`): each elf's calories are summed, the sums
 * are sorted and reversed in place, and the first three are added up.
 */
module AdventCalories {
  import opened Wrappers
  import opened RustStr
  import opened RustSlice
  import Sorting

  /** Largest first. */
  predicate Descending(s: seq<nat>) {
    forall i, j :: 0 <= i < j < |s| ==> s[i] >= s[j]
  }

  function Min(a: nat, b: nat): nat {
    if a <= b then a else b
  }

  /**
   * One elf's log: the lines that parse as numbers are summed, the others
   * (the empty line of a trailing newline, say) are skipped, as
   * `flat_map(|cal| cal.parse())` does.
   */
  function ParsedSum(lines: seq<string>): nat {
    if |lines| == 0 then 0
    else (match ParseU64(lines[0]) case Some(v) => v case None => 0) + ParsedSum(lines[1..])
  }

  /** The calorie count of every elf: groups are separated by a blank line. */
  function ElfCounts(input: string): (r: seq<nat>)
    ensures |r| == |SplitOn(input, "\n\n")|
    ensures forall i :: 0 <= i < |r| ==> r[i] == ParsedSum(Split(SplitOn(input, "\n\n")[i], '\n'))
  {
    var groups := SplitOn(input, "\n\n");
    seq(|groups|, i requires 0 <= i < |groups| => ParsedSum(Split(groups[i], '\n')))
  }

  /** Parsed sums add up over consecutive lines. */
  lemma {:induction false} ParsedSumAppend(a: seq<string>, b: seq<string>)
    ensures ParsedSum(a + b) == ParsedSum(a) + ParsedSum(b)
    decreases |a|
  {
    if |a| > 0 {
      ParsedSumAppend(a[1..], b);
      assert (a + b)[0] == a[0] && (a + b)[1..] == a[1..] + b;
    } else {
      assert a + b == b;
    }
  }

  /** A line that does not parse as a number (an empty one, say) adds nothing. */
  lemma ParsedSumSkips(a: seq<string>, line: string, b: seq<string>)
    requires ParseU64(line).None?
    ensures ParsedSum(a + [line] + b) == ParsedSum(a + b)
  {
    ParsedSumAppend(a + [line], b);
    ParsedSumAppend(a, [line]);
    ParsedSumAppend(a, b);
    assert ParsedSum([line]) == 0 by {
      assert [line][0] == line && [line][1..] == [];
    }
  }

  /** The rendered calorie lines of one elf parse back to its numbers' sum. */
  lemma {:induction false} ParsedSumDecimals(calories: seq<nat>)
    requires forall i :: 0 <= i < |calories| ==> calories[i] <= U64_MAX
    ensures ParsedSum(Decimals(calories)) == Sum(calories)
    decreases |calories|
  {
    if |calories| > 0 {
      ParseDecimal(calories[0]);
      ParsedSumDecimals(calories[1..]);
      assert Decimals(calories)[1..] == Decimals(calories[1..]);
    }
  }

  function Decimals(calories: seq<nat>): (r: seq<string>)
    ensures |r| == |calories| && forall i :: 0 <= i < |r| ==> r[i] == Decimal(calories[i])
  {
    seq(|calories|, i requires 0 <= i < |calories| => Decimal(calories[i]))
  }

  /** One elf's log, one number per line. */
  function RenderElf(calories: seq<nat>): string
    requires |calories| >= 1
  {
    Join(Decimals(calories), '\n')
  }

  /** The whole input: the elves' logs separated by blank lines. */
  function RenderElves(elves: seq<seq<nat>>): string
    requires |elves| >= 1 && forall k :: 0 <= k < |elves| ==> |elves[k]| >= 1
  {
    JoinOn(seq(|elves|, k requires 0 <= k < |elves| && |elves[k]| >= 1 => RenderElf(elves[k])), "\n\n")
  }

  /** Neither end is a line break, and no two line breaks are adjacent. */
  predicate SingleNewlines(s: string) {
    && |s| > 0 && s[0] != '\n' && s[|s| - 1] != '\n'
    && forall i :: 0 <= i < |s| - 1 && s[i] == '\n' ==> s[i + 1] != '\n'
  }

  lemma {:induction false} JoinDigitLines(parts: seq<string>)
    requires |parts| >= 1
    requires forall k :: 0 <= k < |parts| ==> |parts[k]| > 0 && AllDigits(parts[k])
    ensures SingleNewlines(Join(parts, '\n'))
    decreases |parts|
  {
    if |parts| > 1 {
      JoinDigitLines(parts[1..]);
      var a, r := parts[0], Join(parts[1..], '\n');
      var s := a + ['\n'] + r;
      assert Join(parts, '\n') == s;
      assert IsDigit(a[0]);
      forall i | 0 <= i < |s| - 1
        ensures s[i] == '\n' ==> s[i + 1] != '\n'
      {
        if i < |a| {
          assert s[i] == a[i] && IsDigit(a[i]);
        }
        if i > |a| {
          assert s[i] == r[i - |a| - 1] && s[i + 1] == r[i - |a|];
        }
      }
    } else {
      assert IsDigit(parts[0][0]) && IsDigit(parts[0][|parts[0]| - 1]);
    }
  }

  lemma SingleNewlinesNoBlankLine(s: string)
    requires SingleNewlines(s)
    ensures NoMatchStartsIn(s, "\n\n")
  {
    forall i | 0 <= i < |s|
      ensures !MatchAt(s + "\n\n", i, "\n\n")
    {
      var t := s + "\n\n";
      if i < |s| - 1 {
        assert t[i] == s[i] && t[i + 1] == s[i + 1];
      } else {
        assert t[i] == s[|s| - 1];
      }
    }
  }

  /**
   * Reading back a written input: elves whose numbers fit in 64 bits,
   * written one number per line with a blank line between elves, give one
   * count per elf, the sum of its numbers.
   */
  lemma ElfCountsRoundTrip(elves: seq<seq<nat>>)
    requires |elves| >= 1 && forall k :: 0 <= k < |elves| ==> |elves[k]| >= 1
    requires forall k, i :: 0 <= k < |elves| && 0 <= i < |elves[k]| ==> elves[k][i] <= U64_MAX
    ensures ElfCounts(RenderElves(elves)) == seq(|elves|, k requires 0 <= k < |elves| => Sum(elves[k]))
  {
    var logs := seq(|elves|, k requires 0 <= k < |elves| && |elves[k]| >= 1 => RenderElf(elves[k]));
    forall k | 0 <= k < |logs|
      ensures NoMatchStartsIn(logs[k], "\n\n")
    {
      JoinDigitLines(Decimals(elves[k]));
      SingleNewlinesNoBlankLine(logs[k]);
    }
    SplitOnJoin(logs, "\n\n");
    forall k | 0 <= k < |elves|
      ensures ParsedSum(Split(logs[k], '\n')) == Sum(elves[k])
    {
      var ds := Decimals(elves[k]);
      forall p | p in ds
        ensures '\n' !in p
      {
        var i :| 0 <= i < |ds| && ds[i] == p;
        assert AllDigits(Decimal(elves[k][i]));
      }
      SplitJoin(ds, '\n');
      ParsedSumDecimals(elves[k]);
    }
  }

  /**
   * `counts.sort(); counts.reverse(); counts.into_iter().take(3).sum()`:
   * afterwards counts holds the same values largest first, and the total is
   * the sum of its first three (of all of them, when there are fewer).
   */
  method TopThreeSum(counts: array<nat>) returns (total: nat)
    modifies counts
    ensures multiset(counts[..]) == multiset(old(counts[..]))
    ensures Descending(counts[..])
    ensures total == Sum(counts[..Min(3, counts.Length)])
  {
    Sorting.BubbleSort(counts, (x: nat) => x);
    ghost var sorted := counts[..];
    Reverse(counts);
    ReversedItems(sorted);
    total := Sum(counts[..Min(3, counts.Length)]);
  }

  /** `one2` with the file's text as input. */
  method OneTwo(input: string) returns (total: nat)
    ensures exists t: seq<nat> :: multiset(t) == multiset(ElfCounts(input)) && Descending(t)
                        && total == Sum(t[..Min(3, |t|)])
  {
    var elves := ElfCounts(input);
    var counts := new nat[|elves|](i requires 0 <= i < |elves| => elves[i]);
    assert counts[..] == elves;
    total := TopThreeSum(counts);
  }

  /** No three other elves carry more than the first three of a descending list. */
  lemma TopThreeIsMaximal(s: seq<nat>, p: nat, q: nat, r: nat)
    requires Descending(s) && p < q < r < |s|
    ensures s[p] + s[q] + s[r] <= Sum(s[..3])
  {
    var top := s[..3];
    assert Sum(top[2..]) == s[2] by {
      assert top[2..][1..] == [];
    }
    assert Sum(top[1..]) == s[1] + s[2] by {
      assert top[1..][1..] == top[2..];
    }
  }

  /** With three elves or fewer the total is every elf's calories. */
  lemma FewElves(s: seq<nat>, orig: seq<nat>)
    requires multiset(s) == multiset(orig) && |s| <= 3
    ensures Sum(s[..Min(3, |s|)]) == Sum(orig)
  {
    assert s[..Min(3, |s|)] == s;
    SumOfPermutation(s, orig);
  }
}
