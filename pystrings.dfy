/** The Python `str` operations the two scripts rely on: `find`, `split` with
    a `maxsplit`, `join`, `partition` and `replace`, over strings as sequences of
    characters. Separators and patterns are never empty here (Python's `split`
    rejects an empty separator, and the scripts only pass constants). */
module PyStrings {
  import opened Wrappers

  /** `pat` occurs in `s` starting at index `i`. */
  predicate OccursAt(s: string, pat: string, i: nat) {
    i + |pat| <= |s| && s[i..i + |pat|] == pat
  }

  predicate Contains(s: string, pat: string) {
    exists i: nat | i <= |s| :: OccursAt(s, pat, i)
  }

  /** A one-character pattern occurs exactly where that character stands. */
  lemma OccursAtChar(s: string, c: char, i: nat)
    ensures OccursAt(s, [c], i) <==> i < |s| && s[i] == c
  {
    if i < |s| {
      assert s[i..i + 1] == [s[i]];
    }
  }

  lemma ContainsChar(s: string, c: char)
    ensures Contains(s, [c]) <==> c in s
  {
    if c in s {
      var i :| 0 <= i < |s| && s[i] == c;
      OccursAtChar(s, c, i);
    }
    if Contains(s, [c]) {
      var i: nat :| OccursAt(s, [c], i);
      OccursAtChar(s, c, i);
    }
  }

  /** Dropping the first character moves every occurrence one place left. */
  lemma OccursAtTail(s: string, pat: string, i: nat)
    requires |s| > 0
    ensures OccursAt(s, pat, i + 1) <==> OccursAt(s[1..], pat, i)
  {
    if i + 1 + |pat| <= |s| {
      assert s[1..][i..i + |pat|] == s[i + 1..i + 1 + |pat|];
    }
  }

  /** `s.find(pat)`: the leftmost occurrence of `pat`, None where Python gives -1.
      `FindLeftmost` states what it finds. */
  function Find(s: string, pat: string): (r: Option<nat>)
    requires |pat| > 0
    ensures r.Some? ==> r.value + |pat| <= |s|
    decreases |s|
  {
    if |s| < |pat| then None
    else if s[..|pat|] == pat then Some(0)
    else
      match Find(s[1..], pat)
      case None => None
      case Some(k) => Some(k + 1)
  }

  /** `find` returns an occurrence with none before it, and -1 exactly when
      there is none. */
  lemma {:induction false} FindLeftmost(s: string, pat: string)
    requires |pat| > 0
    ensures Find(s, pat).Some? ==> OccursAt(s, pat, Find(s, pat).value)
    ensures Find(s, pat).Some? ==> forall j: nat :: j < Find(s, pat).value ==> !OccursAt(s, pat, j)
    ensures Find(s, pat).None? <==> !Contains(s, pat)
    decreases |s|
  {
    if |s| < |pat| {
    } else if s[..|pat|] == pat {
    } else {
      assert !OccursAt(s, pat, 0);
      FindLeftmost(s[1..], pat);
      forall j: nat | 1 <= j ensures OccursAt(s, pat, j) <==> OccursAt(s[1..], pat, j - 1) {
        OccursAtTail(s, pat, j - 1);
      }
      if Contains(s, pat) {
        var j: nat :| j <= |s| && OccursAt(s, pat, j);
        assert OccursAt(s[1..], pat, j - 1);
      }
    }
  }

  /** When `c` does not occur in `a`, the first `c` of `a + [c] + b` is the one after `a`. */
  lemma FindFirstChar(a: string, c: char, b: string)
    requires c !in a
    ensures Find(a + [c] + b, [c]) == Some(|a|)
  {
    var s := a + [c] + b;
    FindLeftmost(s, [c]);
    OccursAtChar(s, c, |a|);
    var r := Find(s, [c]);
    if r.Some? {
      OccursAtChar(s, c, r.value);
    }
  }

  /** Nothing before the leftmost occurrence contains the pattern. */
  lemma BeforeFindIsFree(s: string, sep: string)
    requires |sep| > 0 && Find(s, sep).Some?
    ensures !Contains(s[..Find(s, sep).value], sep)
  {
    var i := Find(s, sep).value;
    FindLeftmost(s, sep);
    if Contains(s[..i], sep) {
      var j: nat :| j <= i && OccursAt(s[..i], sep, j);
      assert j + |sep| <= i;
      assert s[..i][j..j + |sep|] == s[j..j + |sep|];
      assert OccursAt(s, sep, j);
    }
  }

  /** `s.partition(sep)` when `sep` occurs: the text before its leftmost
      occurrence and the text after it. */
  function Partition(s: string, sep: string): (r: Option<(string, string)>)
    requires |sep| > 0
    ensures r.Some? ==> |r.value.0| + |sep| + |r.value.1| == |s|
  {
    match Find(s, sep)
    case None => None
    case Some(i) => Some((s[..i], s[i + |sep|..]))
  }

  /** The cut text, the separator and the rest put back together give `s`. */
  lemma PartitionJoins(s: string, sep: string)
    requires |sep| > 0 && Partition(s, sep).Some?
    ensures s == Partition(s, sep).value.0 + sep + Partition(s, sep).value.1
  {
    var i := Find(s, sep).value;
    FindLeftmost(s, sep);
    assert s == s[..i] + s[i..i + |sep|] + s[i + |sep|..];
  }

  /** `partition` finds a cut exactly when the separator occurs, and the text
      before the cut holds no separator. */
  lemma PartitionCut(s: string, sep: string)
    requires |sep| > 0
    ensures Partition(s, sep).None? <==> !Contains(s, sep)
    ensures Partition(s, sep).Some? ==> !Contains(Partition(s, sep).value.0, sep)
  {
    FindLeftmost(s, sep);
    if Find(s, sep).Some? {
      BeforeFindIsFree(s, sep);
    }
  }

  /** When `c` does not occur in `a`, `a + [c] + b` is cut at the `c` after `a`. */
  lemma PartitionFirstChar(a: string, c: char, b: string)
    requires c !in a
    ensures Partition(a + [c] + b, [c]) == Some((a, b))
  {
    FindFirstChar(a, c, b);
    assert (a + [c] + b)[..|a|] == a;
    assert (a + [c] + b)[|a| + 1..] == b;
  }

  /** `s.split(sep, maxsplit)`: cut `s` at its leftmost `maxsplit` occurrences of `sep`. */
  function Split(s: string, sep: string, maxsplit: nat): (parts: seq<string>)
    requires |sep| > 0
    ensures 1 <= |parts| <= maxsplit + 1
    decreases maxsplit
  {
    if maxsplit == 0 then [s]
    else
      match Partition(s, sep)
      case None => [s]
      case Some((before, after)) => [before] + Split(after, sep, maxsplit - 1)
  }

  /** A split that stops at once yields the whole string. */
  lemma SplitStops(s: string, sep: string, maxsplit: nat)
    requires |sep| > 0 && (maxsplit == 0 || Partition(s, sep).None?)
    ensures Split(s, sep, maxsplit) == [s]
  {
  }

  /** A split that cuts yields the text before the first separator, then the
      split of the rest with one cut fewer. */
  lemma SplitCuts(s: string, sep: string, maxsplit: nat)
    requires |sep| > 0 && maxsplit > 0 && Partition(s, sep).Some?
    ensures Split(s, sep, maxsplit) ==
      [Partition(s, sep).value.0] + Split(Partition(s, sep).value.1, sep, maxsplit - 1)
  {
  }

  /** `s.split(sep)` without a limit: no string holds more than `|s|` separators. */
  function SplitAll(s: string, sep: string): seq<string>
    requires |sep| > 0
  {
    Split(s, sep, |s| + 1)
  }

  /** `sep.join(parts)`. */
  function Join(parts: seq<string>, sep: string): string
  {
    if |parts| == 0 then ""
    else if |parts| == 1 then parts[0]
    else parts[0] + sep + Join(parts[1..], sep)
  }

  lemma JoinCons(p: string, parts: seq<string>, sep: string)
    requires |parts| > 0
    ensures Join([p] + parts, sep) == p + sep + Join(parts, sep)
  {
    assert ([p] + parts)[1..] == parts;
  }

  /** Joining the pieces of a split with the same separator gives the string back. */
  lemma {:induction false} JoinSplit(s: string, sep: string, maxsplit: nat)
    requires |sep| > 0
    ensures Join(Split(s, sep, maxsplit), sep) == s
    decreases maxsplit
  {
    var cut := Partition(s, sep);
    if maxsplit == 0 || cut.None? {
      SplitStops(s, sep, maxsplit);
    } else {
      var before, after := cut.value.0, cut.value.1;
      var tail := Split(after, sep, maxsplit - 1);
      SplitCuts(s, sep, maxsplit);
      JoinCons(before, tail, sep);
      JoinSplit(after, sep, maxsplit - 1);
      PartitionJoins(s, sep);
    }
  }

  /** Every piece but the last is free of `sep`; so is the last when the split
      stopped for want of separators rather than for reaching `maxsplit`. */
  lemma {:induction false} SplitPiecesFree(s: string, sep: string, maxsplit: nat)
    requires |sep| > 0
    ensures var parts := Split(s, sep, maxsplit);
      && (forall k :: 0 <= k < |parts| - 1 ==> !Contains(parts[k], sep))
      && (|parts| <= maxsplit ==> !Contains(parts[|parts| - 1], sep))
    decreases maxsplit
  {
    var parts := Split(s, sep, maxsplit);
    var cut := Partition(s, sep);
    PartitionCut(s, sep);
    if maxsplit == 0 || cut.None? {
      SplitStops(s, sep, maxsplit);
    } else {
      var before, after := cut.value.0, cut.value.1;
      var tail := Split(after, sep, maxsplit - 1);
      SplitCuts(s, sep, maxsplit);
      SplitPiecesFree(after, sep, maxsplit - 1);
      forall k | 0 <= k < |parts| - 1
        ensures !Contains(parts[k], sep)
      {
        if k > 0 {
          assert parts[k] == tail[k - 1];
        }
      }
      assert parts[|parts| - 1] == tail[|tail| - 1];
    }
  }

  /** `s.count(c)` for a single character. */
  function Count(s: string, c: char): nat
  {
    if |s| == 0 then 0
    else (if s[0] == c then 1 else 0) + Count(s[1..], c)
  }

  lemma {:induction false} CountConcat(a: string, b: string, c: char)
    ensures Count(a + b, c) == Count(a, c) + Count(b, c)
    decreases |a|
  {
    if |a| > 0 {
      assert (a + b)[1..] == a[1..] + b;
      CountConcat(a[1..], b, c);
    } else {
      assert a + b == b;
    }
  }

  lemma {:induction false} CountZero(s: string, c: char)
    ensures Count(s, c) == 0 <==> c !in s
    decreases |s|
  {
    if |s| > 0 {
      CountZero(s[1..], c);
      assert c in s <==> s[0] == c || c in s[1..];
    }
  }

  /** Cutting at the first `c` leaves one `c` fewer after the cut. */
  lemma CountAfterCut(s: string, c: char)
    requires Partition(s, [c]).Some?
    ensures Count(s, c) == Count(Partition(s, [c]).value.1, c) + 1
  {
    var before, after := Partition(s, [c]).value.0, Partition(s, [c]).value.1;
    PartitionCut(s, [c]);
    PartitionJoins(s, [c]);
    ContainsChar(before, c);
    CountZero(before, c);
    CountConcat(before + [c], after, c);
    CountConcat(before, [c], c);
    assert Count([c], c) == 1;
  }

  /** No `c` in `s` means a count of zero. */
  lemma CountWithoutCut(s: string, c: char)
    requires Partition(s, [c]).None?
    ensures Count(s, c) == 0
  {
    PartitionCut(s, [c]);
    ContainsChar(s, c);
    CountZero(s, c);
  }

  /** With a one-character separator `c`, a split into at most `maxsplit + 1`
      pieces yields `min(s.count(c), maxsplit) + 1` of them. */
  lemma {:induction false} SplitCount(s: string, c: char, maxsplit: nat)
    ensures |Split(s, [c], maxsplit)| == (if Count(s, c) < maxsplit then Count(s, c) else maxsplit) + 1
    decreases maxsplit
  {
    var cut := Partition(s, [c]);
    if maxsplit == 0 || cut.None? {
      SplitStops(s, [c], maxsplit);
      if cut.None? {
        CountWithoutCut(s, c);
      }
    } else {
      SplitCuts(s, [c], maxsplit);
      SplitCount(cut.value.1, c, maxsplit - 1);
      CountAfterCut(s, c);
    }
  }

  /** A split without a limit leaves no separator in any piece. */
  lemma {:induction false} SplitAllPiecesFree(s: string, sep: string, maxsplit: nat)
    requires |sep| > 0 && maxsplit > |s|
    ensures forall k :: 0 <= k < |Split(s, sep, maxsplit)| ==> !Contains(Split(s, sep, maxsplit)[k], sep)
    decreases |s|
  {
    var parts := Split(s, sep, maxsplit);
    var cut := Partition(s, sep);
    PartitionCut(s, sep);
    if cut.None? {
      SplitStops(s, sep, maxsplit);
    } else {
      var before, after := cut.value.0, cut.value.1;
      var tail := Split(after, sep, maxsplit - 1);
      SplitCuts(s, sep, maxsplit);
      SplitAllPiecesFree(after, sep, maxsplit - 1);
      forall k | 0 <= k < |parts|
        ensures !Contains(parts[k], sep)
      {
        if k > 0 {
          assert parts[k] == tail[k - 1];
        }
      }
    }
  }

  /** `s.replace(pat, repl)`: every occurrence of `pat`, found left to right and
      without overlap, is replaced with `repl`. */
  function Replace(s: string, pat: string, repl: string): (r: string)
    requires |pat| > 0
    ensures !Contains(s, pat) ==> r == s
    decreases |s|
  {
    PartitionCut(s, pat);
    match Partition(s, pat)
    case None => s
    case Some((before, after)) => before + repl + Replace(after, pat, repl)
  }

  /** `s.replace(pat, repl) == repl.join(s.split(pat))`: the result is the
      pattern-free pieces of `s` glued together with `repl`. */
  lemma {:induction false} ReplaceJoinsPieces(s: string, pat: string, repl: string, maxsplit: nat)
    requires |pat| > 0 && maxsplit > |s|
    ensures Replace(s, pat, repl) == Join(Split(s, pat, maxsplit), repl)
    decreases |s|
  {
    match Partition(s, pat) {
      case None =>
      case Some((before, after)) =>
        ReplaceJoinsPieces(after, pat, repl, maxsplit - 1);
        JoinCons(before, Split(after, pat, maxsplit - 1), repl);
    }
  }

  /** Replacing the pattern with itself changes nothing. */
  lemma {:induction false} ReplaceBySelf(s: string, pat: string)
    requires |pat| > 0
    ensures Replace(s, pat, pat) == s
    decreases |s|
  {
    match Partition(s, pat) {
      case None =>
      case Some((before, after)) =>
        ReplaceBySelf(after, pat);
        PartitionJoins(s, pat);
    }
  }
}
