/**
 * The few functions of Go's `strings` package that the generator uses,
 * restricted to the single-character separators and cut sets it passes.
 */
module GoStrings {

  /** strings.HasPrefix */
  predicate HasPrefix(s: string, prefix: string) {
    |prefix| <= |s| && s[..|prefix|] == prefix
  }

  /** strings.HasSuffix */
  predicate HasSuffix(s: string, suffix: string) {
    |suffix| <= |s| && s[|s| - |suffix|..] == suffix
  }

  /** `sub` occurs in `s` starting at position `i`. */
  predicate OccursAt(s: string, sub: string, i: int) {
    0 <= i && i + |sub| <= |s| && s[i..i + |sub|] == sub
  }

  /** strings.Contains: `sub` occurs somewhere in `s` (the empty string occurs everywhere). */
  function Contains(s: string, sub: string): (r: bool)
    ensures r <==> exists i :: OccursAt(s, sub, i)
    decreases |s|
  {
    if HasPrefix(s, sub) then
      assert OccursAt(s, sub, 0);
      true
    else if |s| == 0 then
      assert forall i :: !OccursAt(s, sub, i);
      false
    else
      var r := Contains(s[1..], sub);
      assert r ==> exists i :: OccursAt(s, sub, i) by {
        if r {
          var j :| OccursAt(s[1..], sub, j);
          assert s[j + 1..j + 1 + |sub|] == s[1..][j..j + |sub|];
          assert OccursAt(s, sub, j + 1);
        }
      }
      assert (exists i :: OccursAt(s, sub, i)) ==> r by {
        if exists i :: OccursAt(s, sub, i) {
          var i :| OccursAt(s, sub, i);
          assert i != 0;
          assert s[1..][i - 1..i - 1 + |sub|] == s[i..i + |sub|];
          assert OccursAt(s[1..], sub, i - 1);
        }
      }
      r
  }

  /** strings.TrimPrefix: drop `prefix` once if `s` starts with it. */
  function TrimPrefix(s: string, prefix: string): (r: string)
    ensures HasPrefix(s, prefix) ==> prefix + r == s
    ensures !HasPrefix(s, prefix) ==> r == s
  {
    if HasPrefix(s, prefix) then
      assert s == s[..|prefix|] + s[|prefix|..];
      s[|prefix|..]
    else s
  }

  /** The first position at or after `i` holding `c`, or -1. */
  function IndexFrom(s: string, c: char, i: nat): (r: int)
    requires i <= |s|
    ensures r == -1 || i <= r < |s|
    ensures 0 <= r ==> s[r] == c
    ensures forall j :: i <= j < |s| && (r == -1 || j < r) ==> s[j] != c
    decreases |s| - i
  {
    if i == |s| then -1
    else if s[i] == c then i
    else IndexFrom(s, c, i + 1)
  }

  /** strings.Index with a one-character needle: the first position of `c`, or -1. */
  function IndexOf(s: string, c: char): (r: int)
    ensures -1 <= r < |s|
    ensures r == -1 <==> c !in s
    ensures 0 <= r ==> s[r] == c
    ensures 0 <= r ==> c !in s[..r]
  {
    IndexFrom(s, c, 0)
  }

  /** The last position below `n` holding `c`, or -1. */
  function LastBelow(s: string, c: char, n: nat): (r: int)
    requires n <= |s|
    ensures -1 <= r < n
    ensures 0 <= r ==> s[r] == c
    ensures forall j :: r < j < n ==> s[j] != c
    decreases n
  {
    if n == 0 then -1
    else if s[n - 1] == c then n - 1
    else LastBelow(s, c, n - 1)
  }

  /** strings.LastIndex with a one-character needle: the last position of `c`, or -1. */
  function LastIndex(s: string, c: char): (r: int)
    ensures -1 <= r < |s|
    ensures r == -1 <==> c !in s
    ensures 0 <= r ==> s[r] == c && c !in s[r + 1..]
  {
    LastBelow(s, c, |s|)
  }

  /** The end of the run of `c` that starts at `i`. */
  function SkipFrom(s: string, c: char, i: nat): (r: nat)
    requires i <= |s|
    ensures i <= r <= |s|
    ensures forall k :: i <= k < r ==> s[k] == c
    ensures r < |s| ==> s[r] != c
    decreases |s| - i
  {
    if i < |s| && s[i] == c then SkipFrom(s, c, i + 1) else i
  }

  /** The start of the run of `c` that ends at `n`, not going below `lo`. */
  function SkipBackTo(s: string, c: char, lo: nat, n: nat): (r: nat)
    requires lo <= n <= |s|
    ensures lo <= r <= n
    ensures forall k :: r <= k < n ==> s[k] == c
    ensures lo < r ==> s[r - 1] != c
    decreases n
  {
    if lo < n && s[n - 1] == c then SkipBackTo(s, c, lo, n - 1) else n
  }

  /** `r` is the slice of `s` starting at `i`, and everything of `s` around it is `c`. */
  ghost predicate CutFrom(s: string, c: char, r: string, i: int) {
    && 0 <= i && i + |r| <= |s| && r == s[i..i + |r|]
    && (forall k :: 0 <= k < i ==> s[k] == c)
    && (forall k :: i + |r| <= k < |s| ==> s[k] == c)
  }

  /**
   * strings.Trim with a one-character cut set: the result is the part of `s`
   * between a run of leading and a run of trailing `c`, and neither of its
   * ends is `c`.
   */
  function Trim(s: string, c: char): (r: string)
    ensures |r| > 0 ==> r[0] != c && r[|r| - 1] != c
    ensures exists i :: CutFrom(s, c, r, i)
  {
    var i := SkipFrom(s, c, 0);
    var j := SkipBackTo(s, c, i, |s|);
    assert CutFrom(s, c, s[i..j], i);
    s[i..j]
  }

  /**
   * strings.Split with a one-character separator: the maximal `c`-free pieces
   * of `s`, in order. Like Go, the empty string splits into one empty piece.
   */
  function Split(s: string, c: char): (r: seq<string>)
    ensures |r| >= 1
    decreases |s|
  {
    if |s| == 0 then [""]
    else
      var rest := Split(s[1..], c);
      if s[0] == c then [""] + rest
      else [[s[0]] + rest[0]] + rest[1..]
  }

  /** strings.Join: the parts with `sep` between neighbours. */
  function Join(parts: seq<string>, sep: string): string
    decreases |parts|
  {
    if |parts| == 0 then ""
    else if |parts| == 1 then parts[0]
    else parts[0] + sep + Join(parts[1..], sep)
  }

  /** A join starts with the first part and ends with the last; no parts join to the empty string. */
  lemma {:induction false} JoinEnds(parts: seq<string>, sep: string)
    ensures |parts| == 0 ==> Join(parts, sep) == ""
    ensures |parts| > 0 ==> HasPrefix(Join(parts, sep), parts[0]) && HasSuffix(Join(parts, sep), parts[|parts| - 1])
    decreases |parts|
  {
    if |parts| > 1 {
      JoinEnds(parts[1..], sep);
      var tail := Join(parts[1..], sep);
      assert Join(parts, sep) == parts[0] + sep + tail;
      assert (parts[0] + sep + tail)[..|parts[0]|] == parts[0];
      assert (parts[0] + sep + tail)[|parts[0] + sep + tail| - |tail|..] == tail;
    }
  }

  // ---------------------------------------------------------------------------
  // Lemmas relating the helpers
  // ---------------------------------------------------------------------------

  /** Joining the pieces of a split with the same separator gives back the string. */
  lemma {:induction false} JoinSplit(s: string, c: char)
    ensures Join(Split(s, c), [c]) == s
    decreases |s|
  {
    if |s| > 0 {
      var rest := Split(s[1..], c);
      JoinSplit(s[1..], c);
      if s[0] == c {
        assert Split(s, c) == [""] + rest;
        if |rest| == 1 {
          assert Join(Split(s, c), [c]) == "" + [c] + rest[0];
        } else {
          assert ([""] + rest)[1..] == rest;
        }
        assert s == [s[0]] + s[1..];
      } else {
        var r := Split(s, c);
        assert r == [[s[0]] + rest[0]] + rest[1..];
        if |rest| == 1 {
          assert Join(r, [c]) == [s[0]] + rest[0];
        } else {
          assert r[1..] == rest[1..];
          assert Join(rest, [c]) == rest[0] + [c] + Join(rest[1..], [c]);
        }
        assert s == [s[0]] + s[1..];
      }
    }
  }

  /** No piece of a split contains the separator. */
  lemma {:induction false} SplitPiecesFree(s: string, c: char)
    ensures forall i :: 0 <= i < |Split(s, c)| ==> c !in Split(s, c)[i]
    decreases |s|
  {
    if |s| > 0 {
      SplitPiecesFree(s[1..], c);
      assert s == [s[0]] + s[1..];
      SplitCons(s[0], s[1..], c);
    }
  }

  /** The last separator of `pre`, separator, `last` is the one between them when `last` has none. */
  lemma LastIndexBefore(pre: string, c: char, last: string)
    requires c !in last
    ensures LastIndex(pre + [c] + last, c) == |pre|
  {
    var s := pre + [c] + last;
    var r := LastIndex(s, c);
    assert s[|pre|] == c;
    assert s[|pre| + 1..] == last;
  }

  /** Splitting a string with a known first character. */
  lemma SplitCons(a: char, t: string, c: char)
    ensures a == c ==> Split([a] + t, c) == [""] + Split(t, c)
    ensures a != c ==> Split([a] + t, c) == [[a] + Split(t, c)[0]] + Split(t, c)[1..]
  {
    assert ([a] + t)[0] == a && ([a] + t)[1..] == t;
  }

  /** Gluing a character onto the first piece commutes with appending more pieces. */
  lemma GlueFirst(a: char, rx: seq<string>, sy: seq<string>)
    requires |rx| >= 1
    ensures [[a] + (rx + sy)[0]] + (rx + sy)[1..] == ([[a] + rx[0]] + rx[1..]) + sy
  {
    assert (rx + sy)[0] == rx[0];
    assert (rx + sy)[1..] == rx[1..] + sy;
  }

  /** Splitting at a separator splits the two sides independently. */
  lemma {:induction false} SplitAround(x: string, c: char, y: string)
    ensures Split(x + [c] + y, c) == Split(x, c) + Split(y, c)
    decreases |x|
  {
    if |x| == 0 {
      assert x + [c] + y == [c] + y;
      SplitCons(c, y, c);
    } else {
      var a := x[0];
      var t := x[1..] + [c] + y;
      assert x + [c] + y == [a] + t;
      assert x == [a] + x[1..];
      SplitAround(x[1..], c, y);
      SplitCons(a, t, c);
      SplitCons(a, x[1..], c);
      var rx, sy := Split(x[1..], c), Split(y, c);
      if a == c {
        assert [""] + (rx + sy) == ([""] + rx) + sy;
      } else {
        GlueFirst(a, rx, sy);
      }
    }
  }

  /** A string without the separator is a single piece. */
  lemma {:induction false} SplitNoSeparator(s: string, c: char)
    requires c !in s
    ensures Split(s, c) == [s]
    decreases |s|
  {
    if |s| > 0 {
      SplitNoSeparator(s[1..], c);
      assert s == [s[0]] + s[1..];
    }
  }

  /** There is one more piece than there are separators. */
  lemma {:induction false} SplitCount(s: string, c: char)
    ensures |Split(s, c)| == multiset(s)[c] + 1
    decreases |s|
  {
    if |s| > 0 {
      SplitCount(s[1..], c);
      assert s == [s[0]] + s[1..];
      assert multiset(s) == multiset{s[0]} + multiset(s[1..]);
    }
  }

  /** Splitting separator-free parts joined by the separator gives the parts back. */
  lemma {:induction false} SplitJoin(parts: seq<string>, c: char)
    requires |parts| >= 1
    requires forall i :: 0 <= i < |parts| ==> c !in parts[i]
    ensures Split(Join(parts, [c]), c) == parts
    decreases |parts|
  {
    if |parts| == 1 {
      SplitNoSeparator(parts[0], c);
    } else {
      SplitJoin(parts[1..], c);
      SplitAround(parts[0], c, Join(parts[1..], [c]));
      SplitNoSeparator(parts[0], c);
      assert parts == [parts[0]] + parts[1..];
    }
  }

  /** Joining a concatenation puts one separator between the two joins. */
  lemma {:induction false} JoinAppend(a: seq<string>, b: seq<string>, sep: string)
    requires |a| >= 1 && |b| >= 1
    ensures Join(a + b, sep) == Join(a, sep) + sep + Join(b, sep)
    decreases |a|
  {
    if |a| == 1 {
      assert (a + b)[1..] == b;
    } else {
      JoinAppend(a[1..], b, sep);
      assert (a + b)[1..] == a[1..] + b;
    }
  }

  /**
   * Trimming a quoted string whose ends are not the quote character gives the
   * string between the quotes back (how an import literal loses its quotes).
   */
  lemma TrimQuoted(p: string, c: char)
    requires |p| > 0 ==> p[0] != c && p[|p| - 1] != c
    ensures Trim([c] + p + [c], c) == p
  {
    var s := [c] + p + [c];
    assert s[0] == c && s[|s| - 1] == c;
    if |p| == 0 {
      assert SkipFrom(s, c, 0) == 2;
    } else {
      assert s[1] == p[0] && s[|s| - 2] == p[|p| - 1];
      assert SkipFrom(s, c, 0) == 1;
      assert SkipBackTo(s, c, 1, |s|) == |s| - 1;
      assert s[1..|s| - 1] == p;
    }
  }

  /** The text before the first `c`, or all of `s` when it has none. */
  function UpTo(s: string, c: char): (r: string)
    ensures HasPrefix(s, r) && c !in r
    ensures |r| < |s| ==> s[|r|] == c
  {
    var i := IndexOf(s, c);
    if i < 0 then s else s[..i]
  }

  /** The text after the first `c`. */
  function After(s: string, c: char): (r: string)
    requires c in s
    ensures |r| < |s|
  {
    s[IndexOf(s, c) + 1..]
  }

  /** In `head + c + tail` with no `c` in `head`, the first `c` is the one after `head`. */
  lemma FirstSeparator(head: string, c: char, tail: string)
    requires c !in head
    ensures c in head + [c] + tail
    ensures UpTo(head + [c] + tail, c) == head
    ensures After(head + [c] + tail, c) == tail
  {
    var s := head + [c] + tail;
    assert s[|head|] == c;
    assert s[..|head|] == head;
    assert IndexOf(s, c) == |head|;
    assert s[|head| + 1..] == tail;
  }

  /**
   * The first piece of a split is the text before the first separator; when
   * there is a separator, the second piece is the text between the first and
   * the next one.
   */
  lemma {:induction false} SplitPieces(s: string, c: char)
    ensures Split(s, c)[0] == UpTo(s, c)
    ensures c in s ==> |Split(s, c)| >= 2 && Split(s, c)[1] == UpTo(After(s, c), c)
  {
    if c !in s {
      SplitNoSeparator(s, c);
    } else {
      var i := IndexOf(s, c);
      var rest := s[i + 1..];
      assert s == s[..i] + [c] + rest;
      SplitAround(s[..i], c, rest);
      SplitNoSeparator(s[..i], c);
      SplitPieces(rest, c);
    }
  }

  /** Two parts join around one separator. */
  lemma JoinPair(x: string, y: string, sep: string)
    ensures Join([x, y], sep) == x + sep + y
  {
    assert [x, y][1..] == [y];
  }
}
