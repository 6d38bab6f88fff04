/**
 * Day 6 of src/advent.rs: the first window of pairwise distinct characters
 * in a datastream (`determine_marker_index`, `six1`, `six2`).
 */
module AdventMarker {
  import opened RustStr

  /** The set a window's one-character pieces are collected into. */
  function CharSet(s: string): set<char> {
    set c | c in s
  }

  predicate Distinct(s: string) {
    forall i, j :: 0 <= i < j < |s| ==> s[i] != s[j]
  }

  /** A window has as many different characters as characters exactly when they are pairwise distinct. */
  lemma {:induction false} CharSetSize(s: string)
    ensures |CharSet(s)| <= |s|
    ensures |CharSet(s)| == |s| <==> Distinct(s)
    decreases |s|
  {
    if |s| > 0 {
      var t, last := s[..|s| - 1], s[|s| - 1];
      CharSetSize(t);
      assert s == t + [last];
      assert CharSet(s) == CharSet(t) + {last};
      if last in CharSet(t) {
        var i :| 0 <= i < |t| && t[i] == last;
        assert s[i] == s[|s| - 1];
      } else {
        assert Distinct(s) <==> Distinct(t);
      }
    }
  }

  /** The window of w characters starting at k lies inside s and has no repeated character. */
  predicate IsMarkerWindow(s: string, w: nat, k: nat) {
    k + w <= |s| && Distinct(s[k..k + w])
  }

  /**
   * The marker the search finds from window idx on: the end of the first
   * window of w different characters, or 0 when there is none.
   */
  function MarkerFrom(s: string, w: nat, idx: nat): nat
    decreases |s| - idx
  {
    if idx + w > |s| then 0
    else if |CharSet(s[idx..idx + w])| == w then idx + w
    else MarkerFrom(s, w, idx + 1)
  }

  /** The marker of a whole datastream. */
  function FirstMarker(s: string, w: nat): nat {
    MarkerFrom(s, w, 0)
  }

  lemma {:induction false} MarkerFromMeaning(s: string, w: nat, idx: nat)
    requires w > 0
    ensures var m := MarkerFrom(s, w, idx);
      && (m == 0 <==> forall k: nat :: idx <= k ==> !IsMarkerWindow(s, w, k))
      && (m != 0 ==> idx + w <= m && IsMarkerWindow(s, w, m - w)
                     && forall k: nat :: idx <= k < m - w ==> !IsMarkerWindow(s, w, k))
    decreases |s| - idx
  {
    if idx + w <= |s| {
      CharSetSize(s[idx..idx + w]);
      if |CharSet(s[idx..idx + w])| != w {
        MarkerFromMeaning(s, w, idx + 1);
        assert !IsMarkerWindow(s, w, idx);
      } else {
        assert IsMarkerWindow(s, w, idx);
      }
    } else {
      assert forall k: nat :: idx <= k ==> !IsMarkerWindow(s, w, k);
    }
  }

  /**
   * The marker is the end of the first window of w pairwise distinct
   * characters; 0 means that no window qualifies.
   */
  lemma FirstMarkerMeaning(s: string, w: nat)
    requires w > 0
    ensures var m := FirstMarker(s, w);
      && (m == 0 <==> forall k: nat :: !IsMarkerWindow(s, w, k))
      && (m != 0 ==> w <= m && IsMarkerWindow(s, w, m - w)
                     && forall k: nat :: k < m - w ==> !IsMarkerWindow(s, w, k))
  {
    MarkerFromMeaning(s, w, 0);
  }

  /**
   * The loop over `windows(w)` with its mutable `marker` and `break`. With
   * a window size of 0 `windows` panics, so w is positive.
   */
  method FindMarker(example: string, w: nat) returns (marker: nat)
    requires w > 0
    ensures marker == FirstMarker(example, w)
  {
    marker := 0;
    var idx := 0;
    while idx + w <= |example|
      invariant FirstMarker(example, w) == MarkerFrom(example, w, idx)
      invariant marker == 0
      decreases |example| - idx
    {
      var uniq := CharSet(example[idx..idx + w]);
      if |uniq| == w {
        marker := idx + w;
        break;
      }
      idx := idx + 1;
    }
  }

  /**
   * `determine_marker_index` as written: the window size it is given is
   * ignored and windows of 14 are searched, whatever the caller asked for.
   */
  method DetermineMarkerIndex(input: string, windowSize: nat) returns (marker: nat)
    ensures marker == FirstMarker(Trim(input), 14)
  {
    marker := FindMarker(Trim(input), 14);
  }

  /** `determine_marker_index` searching windows of the size it is given. */
  method DetermineMarkerIndexIntended(input: string, windowSize: nat) returns (marker: nat)
    requires windowSize > 0
    ensures marker == FirstMarker(Trim(input), windowSize)
  {
    marker := FindMarker(Trim(input), windowSize);
  }

  /** `six1` with the file's text as input: a start-of-packet marker, four distinct characters. */
  method SixOne(input: string) returns (marker: nat)
    ensures marker == FirstMarker(Trim(input), 4)
  {
    marker := DetermineMarkerIndexIntended(input, 4);
  }

  /** `six2` with the file's text as input: a start-of-message marker, fourteen distinct characters. */
  method SixTwo(input: string) returns (marker: nat)
    ensures marker == FirstMarker(Trim(input), 14)
  {
    marker := DetermineMarkerIndexIntended(input, 14);
  }

  /**
   * On the stream "abcd" the as-written search (windows of 14) finds no
   * marker, while the start-of-packet marker `six1` asks for is at 4.
   */
  lemma AsWrittenSixOneMissesMarker()
    ensures FirstMarker(Trim("abcd"), 14) == 0
    ensures FirstMarker(Trim("abcd"), 4) == 4
  {
    TrimAbcd();
    var s := "abcd";
    assert Distinct(s[0..4]);
    CharSetSize(s[0..4]);
  }

  lemma TrimAbcd()
    ensures Trim("abcd") == "abcd"
  {
    var s := "abcd";
    assert !IsWhitespace(s[0]) && !IsWhitespace(s[3]);
    assert TrimStart(s) == s;
  }
}
