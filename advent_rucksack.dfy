/**
 * Day 3 of src/advent.rs (`three1`, `three2`): the letter-priority table
 * built from `alphab.split("")`, the item two compartments of a rucksack
 * share, and the badge three rucksacks share.
 */
module AdventRucksack {
  import opened Wrappers
  import opened RustStr

  const LOWER: string := "abcdefghijklmnopqrstuvwxyz"
  const UPPER: string := "ABCDEFGHIJKLMNOPQRSTUVWXYZ"

  /** The `alphab` literal. */
  const ALPHABET: string := LOWER + UPPER

  lemma LowerAt(i: nat)
    requires i < 26
    ensures |LOWER| == 26 && LOWER[i] as int == 'a' as int + i
  {
    if i == 0 {
    } else if i == 1 {
    } else if i == 2 {
    } else if i == 3 {
    } else if i == 4 {
    } else if i == 5 {
    } else if i == 6 {
    } else if i == 7 {
    } else if i == 8 {
    } else if i == 9 {
    } else if i == 10 {
    } else if i == 11 {
    } else if i == 12 {
    } else if i == 13 {
    } else if i == 14 {
    } else if i == 15 {
    } else if i == 16 {
    } else if i == 17 {
    } else if i == 18 {
    } else if i == 19 {
    } else if i == 20 {
    } else if i == 21 {
    } else if i == 22 {
    } else if i == 23 {
    } else if i == 24 {
    } else if i == 25 {
    }
  }

  lemma UpperAt(i: nat)
    requires i < 26
    ensures |UPPER| == 26 && UPPER[i] as int == 'A' as int + i
  {
    if i == 0 {
    } else if i == 1 {
    } else if i == 2 {
    } else if i == 3 {
    } else if i == 4 {
    } else if i == 5 {
    } else if i == 6 {
    } else if i == 7 {
    } else if i == 8 {
    } else if i == 9 {
    } else if i == 10 {
    } else if i == 11 {
    } else if i == 12 {
    } else if i == 13 {
    } else if i == 14 {
    } else if i == 15 {
    } else if i == 16 {
    } else if i == 17 {
    } else if i == 18 {
    } else if i == 19 {
    } else if i == 20 {
    } else if i == 21 {
    } else if i == 22 {
    } else if i == 23 {
    } else if i == 24 {
    } else if i == 25 {
    }
  }

  /** The code of the character at position i of the alphabet literal. */
  function AlphabetCode(i: nat): int {
    if i < 26 then 'a' as int + i else 'A' as int + i - 26
  }

  lemma AlphabetLetters()
    ensures |ALPHABET| == 52
    ensures forall i :: 0 <= i < 52 ==> ALPHABET[i] as int == AlphabetCode(i)
  {
    LowerAt(0);
    UpperAt(0);
    forall i | 0 <= i < 52
      ensures ALPHABET[i] as int == AlphabetCode(i)
    {
      if i < 26 {
        LowerAt(i);
      } else {
        UpperAt(i - 26);
      }
    }
  }

  predicate IsLetter(c: char) {
    'a' <= c <= 'z' || 'A' <= c <= 'Z'
  }

  /** The priority the puzzle asks for: a to z are 1 to 26, A to Z are 27 to 52. */
  function LetterPriority(c: char): nat
    requires IsLetter(c)
  {
    if 'a' <= c <= 'z' then c as int - 'a' as int + 1 else c as int - 'A' as int + 27
  }

  /**
   * Collecting (key, value) pairs into a HashMap: a key is present when some
   * pair carries it.
   */
  function Collect(pairs: seq<(string, nat)>): (r: map<string, nat>)
    ensures forall k :: k in r <==> exists i :: 0 <= i < |pairs| && pairs[i].0 == k
  {
    if |pairs| == 0 then map[]
    else
      var last := pairs[|pairs| - 1];
      var r := Collect(pairs[..|pairs| - 1]);
      assert forall k :: k in r <==> exists i :: 0 <= i < |pairs| - 1 && pairs[i].0 == k;
      r[last.0 := last.1]
  }

  /** The last pair with a given key is the one that stays in the map. */
  lemma {:induction false} CollectLastWins(pairs: seq<(string, nat)>, j: nat)
    requires j < |pairs|
    requires forall i :: j < i < |pairs| ==> pairs[i].0 != pairs[j].0
    ensures pairs[j].0 in Collect(pairs) && Collect(pairs)[pairs[j].0] == pairs[j].1
    decreases |pairs|
  {
    if j < |pairs| - 1 {
      CollectLastWins(pairs[..|pairs| - 1], j);
    }
  }

  /** `enumerate`, each piece with its position. */
  function Enumerate(pieces: seq<string>): (r: seq<(string, nat)>)
    ensures |r| == |pieces|
    ensures forall i :: 0 <= i < |r| ==> r[i] == (pieces[i], i)
  {
    seq(|pieces|, i requires 0 <= i < |pieces| => (pieces[i], i))
  }

  /**
   * The `priorities` map: the pieces of `alphab.split("")` with their
   * positions, so the leading and trailing empty pieces both land on "" and
   * the later one, 53, stays.
   */
  const PRIORITIES: map<string, nat> := Collect(Enumerate(SplitEmpty(ALPHABET)))

  lemma PriorityAt(i: nat)
    requires i < 52
    ensures [ALPHABET[i]] in PRIORITIES && PRIORITIES[[ALPHABET[i]]] == i + 1
  {
    AlphabetLetters();
    var pairs := Enumerate(SplitEmpty(ALPHABET));
    assert pairs[i + 1] == ([ALPHABET[i]], i + 1);
    forall k | i + 1 < k < |pairs|
      ensures pairs[k].0 != [ALPHABET[i]]
    {
      if k < 53 {
        assert pairs[k].0 == [ALPHABET[k - 1]];
      }
    }
    CollectLastWins(pairs, i + 1);
  }

  /** a to z have the priorities 1 to 26 and A to Z 27 to 52. */
  lemma LetterPriorities()
    ensures forall c :: IsLetter(c) ==> [c] in PRIORITIES && PRIORITIES[[c]] == LetterPriority(c)
  {
    forall c | IsLetter(c)
      ensures [c] in PRIORITIES && PRIORITIES[[c]] == LetterPriority(c)
    {
      var i := if 'a' <= c <= 'z' then c as int - 'a' as int else c as int - 'A' as int + 26;
      AlphabetLetters();
      assert ALPHABET[i] == c;
      PriorityAt(i);
    }
  }

  /** The empty string, which both ends of the split produce, keeps the later position. */
  lemma EmptyPriority()
    ensures "" in PRIORITIES && PRIORITIES[""] == 53
  {
    AlphabetLetters();
    var pairs := Enumerate(SplitEmpty(ALPHABET));
    assert pairs[53] == ("", 53);
    CollectLastWins(pairs, 53);
  }

  /** The keys are the empty string and the one-letter strings. */
  lemma PriorityKeys(k: string)
    ensures k in PRIORITIES <==> k == "" || (|k| == 1 && IsLetter(k[0]))
  {
    AlphabetLetters();
    var pairs := Enumerate(SplitEmpty(ALPHABET));
    if k in PRIORITIES {
      var i :| 0 <= i < |pairs| && pairs[i].0 == k;
      if 0 < i < 53 {
        assert k == [ALPHABET[i - 1]];
      }
    } else if k == "" {
      EmptyPriority();
    } else if |k| == 1 && IsLetter(k[0]) {
      LetterPriorities();
    }
  }

  /** The set a string's `split("")` is collected into. */
  function Pieces(s: string): set<string> {
    set p | p in SplitEmpty(s)
  }

  /** Its members: the empty string and each character on its own. */
  lemma PiecesOf(s: string, p: string)
    ensures p in Pieces(s) <==> p == "" || (|p| == 1 && p[0] in s)
  {
    var pieces := SplitEmpty(s);
    if p in Pieces(s) {
      var i :| 0 <= i < |pieces| && pieces[i] == p;
      if 0 < i <= |s| {
        assert p == [s[i - 1]];
      }
    }
    if |p| == 1 && p[0] in s {
      var i :| 0 <= i < |s| && s[i] == p[0];
      assert pieces[i + 1] == p;
    }
  }

  /** The non-empty pieces common to all the given strings. */
  function Shared(strs: seq<string>): set<string>
    requires |strs| >= 1
  {
    if |strs| == 1 then Pieces(strs[0]) - {""} else Shared(strs[..|strs| - 1]) * Pieces(strs[|strs| - 1])
  }

  /** The characters that occur in every one of the strings. */
  ghost predicate InAll(c: char, strs: seq<string>) {
    forall i :: 0 <= i < |strs| ==> c in strs[i]
  }

  /** Shared holds exactly the characters found in every string, each as a one-character string. */
  lemma {:induction false} SharedIsCommonChars(strs: seq<string>, p: string)
    requires |strs| >= 1
    ensures p in Shared(strs) <==> |p| == 1 && InAll(p[0], strs)
    decreases |strs|
  {
    PiecesOf(strs[|strs| - 1], p);
    if |strs| == 1 {
    } else {
      SharedIsCommonChars(strs[..|strs| - 1], p);
      if |p| == 1 && InAll(p[0], strs) {
        assert InAll(p[0], strs[..|strs| - 1]);
      }
      if p in Shared(strs) {
        assert forall i :: 0 <= i < |strs| - 1 ==> strs[..|strs| - 1][i] == strs[i];
      }
    }
  }

  /** A set of one element. */
  lemma Singleton<T>(s: set<T>)
    ensures |s| == 1 <==> exists x :: s == {x}
  {
    if |s| == 1 {
      var x :| x in s;
      assert |s - {x}| == 0;
      assert s == {x};
    }
  }

  /**
   * The priority of the one piece the strings share: the assertion that
   * there is exactly one panics, and so does a piece with no priority.
   */
  ghost function SharedPriority(strs: seq<string>): Option<nat>
    requires |strs| >= 1
  {
    var shared := Shared(strs);
    if |shared| != 1 then None
    else
      var item :| item in shared;
      if item in PRIORITIES then Some(PRIORITIES[item]) else None
  }

  /**
   * The meaning of SharedPriority: it is p exactly when the strings have one
   * common character, that character is a letter, and p is its priority.
   * So the value 53 of the empty string is never produced.
   */
  lemma SharedPriorityMeaning(strs: seq<string>, p: nat)
    requires |strs| >= 1
    ensures SharedPriority(strs) == Some(p) <==>
      exists c :: IsLetter(c) && InAll(c, strs) && p == LetterPriority(c)
               && forall d :: InAll(d, strs) ==> d == c
  {
    var shared := Shared(strs);
    Singleton(shared);
    LetterPriorities();
    if SharedPriority(strs) == Some(p) {
      var item :| shared == {item};
      SharedIsCommonChars(strs, item);
      var c := item[0];
      assert item == [c];
      PriorityKeys(item);
      forall d | InAll(d, strs)
        ensures d == c
      {
        SharedIsCommonChars(strs, [d]);
      }
    }
    if exists c :: IsLetter(c) && InAll(c, strs) && p == LetterPriority(c) && forall d :: InAll(d, strs) ==> d == c {
      var c :| IsLetter(c) && InAll(c, strs) && p == LetterPriority(c) && forall d :: InAll(d, strs) ==> d == c;
      SharedIsCommonChars(strs, [c]);
      forall item | item in shared
        ensures item == [c]
      {
        SharedIsCommonChars(strs, item);
        assert item == [item[0]];
      }
      assert shared == {[c]};
    }
  }

  /**
   * One rucksack of `three1`: the item both halves hold. The halves are
   * split at half the length, rounded down.
   */
  ghost function RucksackPriority(line: string): Option<nat> {
    var mid := |line| / 2;
    SharedPriority([line[..mid], line[mid..]])
  }

  /** One group of `three2`: the badge all three rucksacks hold; `chunks(3)` may leave a shorter group, and the assertion on its length panics. */
  ghost function BadgePriority(group: seq<string>): Option<nat> {
    if |group| != 3 then None else SharedPriority(group)
  }

  /** The groups `chunks(3)` makes: threes, and a shorter last group. */
  function Chunks(lines: seq<string>): (r: seq<seq<string>>)
    ensures forall i :: 0 <= i < |r| ==> 1 <= |r[i]| <= 3
    decreases |lines|
  {
    if |lines| == 0 then []
    else if |lines| <= 3 then [lines]
    else [lines[..3]] + Chunks(lines[3..])
  }

  /** Chunking loses no line and adds none. */
  lemma {:induction false} ChunksConcat(lines: seq<string>)
    ensures Concat(Chunks(lines)) == lines
    decreases |lines|
  {
    if |lines| > 3 {
      ChunksConcat(lines[3..]);
      assert lines == lines[..3] + lines[3..];
    }
  }

  function Concat(groups: seq<seq<string>>): seq<string> {
    if |groups| == 0 then [] else groups[0] + Concat(groups[1..])
  }

  /** The sum of all the priorities, or None when any one panics. */
  ghost function TotalOf(priorities: seq<Option<nat>>): Option<nat> {
    if |priorities| == 0 then Some(0)
    else
      var first :- priorities[0];
      var rest :- TotalOf(priorities[1..]);
      Some(first + rest)
  }

  /** Each priority is between 1 and 52, so a total is too, per item. */
  lemma {:induction false} TotalBounds(priorities: seq<Option<nat>>)
    requires forall i :: 0 <= i < |priorities| ==> priorities[i].Some? ==> 1 <= priorities[i].value <= 52
    ensures TotalOf(priorities).Some? ==> |priorities| <= TotalOf(priorities).value <= 52 * |priorities|
    decreases |priorities|
  {
    if |priorities| > 0 {
      TotalBounds(priorities[1..]);
    }
  }

  /** `three1` with the file's text as input. */
  ghost function ThreeOne(input: string): Option<nat> {
    var lines := Split(Trim(input), '\n');
    TotalOf(seq(|lines|, i requires 0 <= i < |lines| => RucksackPriority(lines[i])))
  }

  /** `three2` with the file's text as input. */
  ghost function ThreeTwo(input: string): Option<nat> {
    var groups := Chunks(Split(Trim(input), '\n'));
    TotalOf(seq(|groups|, i requires 0 <= i < |groups| => BadgePriority(groups[i])))
  }

  /** The strings have exactly one character in common, and it is a letter. */
  ghost predicate OneCommonLetter(strs: seq<string>) {
    exists c :: IsLetter(c) && InAll(c, strs) && forall d :: InAll(d, strs) ==> d == c
  }

  /** A shared priority is found exactly when the strings have one common letter. */
  lemma SharedPriorityFound(strs: seq<string>)
    requires |strs| >= 1
    ensures SharedPriority(strs).Some? <==> OneCommonLetter(strs)
  {
    if SharedPriority(strs).Some? {
      SharedPriorityMeaning(strs, SharedPriority(strs).value);
    }
    if OneCommonLetter(strs) {
      var c :| IsLetter(c) && InAll(c, strs) && forall d :: InAll(d, strs) ==> d == c;
      SharedPriorityMeaning(strs, LetterPriority(c));
    }
  }

  /** A total exists exactly when no priority panics. */
  lemma {:induction false} TotalOfSome(priorities: seq<Option<nat>>)
    ensures TotalOf(priorities).Some? <==> forall i :: 0 <= i < |priorities| ==> priorities[i].Some?
    decreases |priorities|
  {
    if |priorities| > 0 {
      TotalOfSome(priorities[1..]);
      assert forall i :: 1 <= i < |priorities| ==> priorities[i] == priorities[1..][i - 1];
    }
  }

  /** Group g of three consecutive lines. */
  function Group(lines: seq<string>, g: nat): seq<string>
    requires 3 * g + 3 <= |lines|
  {
    lines[3 * g..3 * g + 3]
  }

  /** `chunks(3)` makes (n + 2) / 3 groups: lines 3g, 3g + 1, 3g + 2, the last one cut short at the end. */
  lemma {:induction false} ChunksShape(lines: seq<string>)
    ensures |Chunks(lines)| == (|lines| + 2) / 3
    ensures forall g :: 0 <= g < |Chunks(lines)| && 3 * g + 3 <= |lines| ==> Chunks(lines)[g] == Group(lines, g)
    ensures forall g :: 0 <= g < |Chunks(lines)| && 3 * g + 3 > |lines| ==> Chunks(lines)[g] == lines[3 * g..]
    decreases |lines|
  {
    if |lines| > 3 {
      var rest := lines[3..];
      ChunksShape(rest);
      var r := Chunks(lines);
      assert r == [lines[..3]] + Chunks(rest);
      forall g | 0 < g < |r|
        ensures r[g] == Chunks(rest)[g - 1]
      {
      }
      forall g | 0 < g < |r| && 3 * g + 3 <= |lines|
        ensures r[g] == Group(lines, g)
      {
        assert Group(rest, g - 1) == Group(lines, g);
      }
      forall g | 0 < g < |r| && 3 * g + 3 > |lines|
        ensures r[g] == lines[3 * g..]
      {
        assert rest[3 * (g - 1)..] == lines[3 * g..];
      }
      assert r[0] == lines[..3];
      if |lines| >= 3 {
        assert Group(lines, 0) == lines[..3];
      }
    } else if |lines| > 0 {
      assert Chunks(lines) == [lines];
      assert lines[3 * 0..] == lines;
      if |lines| == 3 {
        assert Group(lines, 0) == lines;
      }
    }
  }

  /** A group of three rucksacks with exactly one letter in common. */
  ghost predicate HasBadge(group: seq<string>) {
    |group| == 3 && OneCommonLetter(group)
  }

  /** The badges of all groups are found exactly when every group has one. */
  lemma AllBadgesFound(groups: seq<seq<string>>)
    ensures TotalOf(seq(|groups|, i requires 0 <= i < |groups| => BadgePriority(groups[i]))).Some?
      <==> forall i :: 0 <= i < |groups| ==> HasBadge(groups[i])
  {
    var ps := seq(|groups|, i requires 0 <= i < |groups| => BadgePriority(groups[i]));
    TotalOfSome(ps);
    forall i | 0 <= i < |groups|
      ensures ps[i].Some? <==> HasBadge(groups[i])
    {
      if |groups[i]| == 3 {
        SharedPriorityFound(groups[i]);
      }
    }
  }

  /** Every group of `chunks(3)` is a whole three exactly when the line count is a multiple of 3. */
  lemma WholeGroups(lines: seq<string>)
    ensures (forall i :: 0 <= i < |Chunks(lines)| ==> |Chunks(lines)[i]| == 3) <==> |lines| % 3 == 0
    ensures |lines| % 3 == 0 ==> |Chunks(lines)| == |lines| / 3
    ensures |lines| % 3 == 0 ==> forall g :: 0 <= g < |lines| / 3 ==> Chunks(lines)[g] == Group(lines, g)
  {
    ChunksShape(lines);
    var n, groups := |lines|, Chunks(lines);
    if n % 3 != 0 {
      var g := |groups| - 1;
      assert 3 * g + 3 > n && groups[g] == lines[3 * g..];
    }
  }

  /**
   * `three2` succeeds exactly when the lines come in whole groups of three
   * and every group has exactly one letter in common.
   */
  lemma ThreeTwoMeaning(input: string)
    ensures var lines := Split(Trim(input), '\n');
      ThreeTwo(input).Some? <==>
        |lines| % 3 == 0 && forall g :: 0 <= g < |lines| / 3 ==> HasBadge(Group(lines, g))
  {
    var lines := Split(Trim(input), '\n');
    var groups := Chunks(lines);
    AllBadgesFound(groups);
    WholeGroups(lines);
    if forall i :: 0 <= i < |groups| ==> HasBadge(groups[i]) {
      assert forall i :: 0 <= i < |groups| ==> |groups[i]| == 3;
    }
  }

  /** The total of `three2` lies between 1 and 52 per group. */
  lemma ThreeTwoBounds(input: string)
    ensures var groups := Chunks(Split(Trim(input), '\n'));
      ThreeTwo(input).Some? ==> |groups| <= ThreeTwo(input).value <= 52 * |groups|
  {
    var groups := Chunks(Split(Trim(input), '\n'));
    var ps := seq(|groups|, i requires 0 <= i < |groups| => BadgePriority(groups[i]));
    forall i | 0 <= i < |ps|
      ensures ps[i].Some? ==> 1 <= ps[i].value <= 52
    {
      if |groups[i]| == 3 {
        SharedPriorityRange(groups[i]);
      }
    }
    TotalBounds(ps);
  }

  /** Every priority found lies between 1 and 52. */
  lemma SharedPriorityRange(strs: seq<string>)
    requires |strs| >= 1
    ensures SharedPriority(strs).Some? ==> 1 <= SharedPriority(strs).value <= 52
  {
    if SharedPriority(strs).Some? {
      SharedPriorityMeaning(strs, SharedPriority(strs).value);
    }
  }

  /** The total of `three1` lies between 1 and 52 per rucksack. */
  lemma ThreeOneBounds(input: string)
    ensures var n := |Split(Trim(input), '\n')|;
      ThreeOne(input).Some? ==> n <= ThreeOne(input).value <= 52 * n
  {
    var lines := Split(Trim(input), '\n');
    var ps := seq(|lines|, i requires 0 <= i < |lines| => RucksackPriority(lines[i]));
    forall i | 0 <= i < |ps|
      ensures ps[i].Some? ==> 1 <= ps[i].value <= 52
    {
      var mid := |lines[i]| / 2;
      SharedPriorityRange([lines[i][..mid], lines[i][mid..]]);
    }
    TotalBounds(ps);
  }
}
