/**
 * The string operations the calculator relies on, with Python's semantics:
 * `str.find`, `str.split(sep)` for a non-empty separator, `sep.join(pieces)`
 * and `str.replace` of a single character.
 */
module Strings {
  import opened Wrappers

  /** True when `d` occurs in `s` starting at index `j`. */
  predicate OccursAt(s: string, d: string, j: int) {
    0 <= j && j + |d| <= |s| && s[j..j + |d|] == d
  }

  lemma OccursAtSingle(s: string, c: char)
    ensures forall j :: OccursAt(s, [c], j) <==> 0 <= j < |s| && s[j] == c
  {
    forall j | 0 <= j < |s| ensures OccursAt(s, [c], j) <==> s[j] == c {
      assert s[j..j + 1] == [s[j]];
    }
  }

  /** Every occurrence of `d` starts with the first character of `d`. */
  lemma OccursAtHead(s: string, d: string)
    requires d != []
    ensures forall j :: OccursAt(s, d, j) ==> 0 <= j < |s| && s[j] == d[0]
  {
    forall j | OccursAt(s, d, j) ensures 0 <= j < |s| && s[j] == d[0] {
      assert s[j..j + |d|][0] == s[j];
    }
  }

  lemma OccursAtTail(s: string, d: string)
    requires s != []
    ensures forall j :: 1 <= j ==> (OccursAt(s, d, j) <==> OccursAt(s[1..], d, j - 1))
  {
    forall j | 1 <= j ensures OccursAt(s, d, j) <==> OccursAt(s[1..], d, j - 1) {
      if j + |d| <= |s| {
        assert s[1..][j - 1..j - 1 + |d|] == s[j..j + |d|];
      }
    }
  }

  /** An occurrence inside a prefix of `s` is an occurrence in `s` that ends within the prefix. */
  lemma OccursAtPrefix(s: string, d: string, i: nat)
    requires i <= |s|
    ensures forall j :: OccursAt(s[..i], d, j) ==> OccursAt(s, d, j) && j + |d| <= i
  {
    forall j | OccursAt(s[..i], d, j) ensures OccursAt(s, d, j) && j + |d| <= i {
      assert s[..i][j..j + |d|] == s[j..j + |d|];
    }
  }

  /** The index of the leftmost occurrence of `d` in `s` (Python's `str.find`, None for -1). */
  function Find(s: string, d: string): (r: Option<nat>)
    requires d != []
    ensures r.Some? ==> OccursAt(s, d, r.value)
    ensures forall j :: 0 <= j && (r.None? || j < r.value) ==> !OccursAt(s, d, j)
    decreases |s|
  {
    if |s| < |d| then None
    else if s[..|d|] == d then Some(0)
    else
      OccursAtTail(s, d);
      match Find(s[1..], d)
      case None => None
      case Some(i) => Some(i + 1)
  }

  /** Find lands on `i` when `d` occurs there and the first character of `d` does not occur before. */
  lemma FindAt(s: string, d: string, i: nat)
    requires d != [] && OccursAt(s, d, i)
    requires forall j :: 0 <= j < i ==> s[j] != d[0]
    ensures Find(s, d) == Some(i)
  {
    var r := Find(s, d);
    assert r.Some?;
    OccursAtHead(s, d);
  }

  lemma FindNone(s: string, d: string)
    requires d != [] && d[0] !in s
    ensures Find(s, d) == None
  {
    OccursAtHead(s, d);
  }

  /** Python's `d.join(xs)`: the pieces in order, with `d` between neighbours. */
  function Join(xs: seq<string>, d: string): (r: string)
    ensures |xs| >= 1 ==> xs[0] <= r
    decreases |xs|
  {
    if |xs| == 0 then ""
    else if |xs| == 1 then xs[0]
    else xs[0] + d + Join(xs[1..], d)
  }

  /**
   * Python's `s.split(d)` for a non-empty separator: cut at the leftmost
   * occurrence of `d`, then go on splitting what follows it.
   */
  function Split(s: string, d: string): (r: seq<string>)
    requires d != []
    ensures |r| >= 1
    decreases |s|
  {
    match Find(s, d)
    case None => [s]
    case Some(i) => [s[..i]] + Split(s[i + |d|..], d)
  }

  /** No piece of a split contains the separator. */
  lemma {:induction false} SplitPiecesFree(s: string, d: string)
    requires d != []
    ensures forall k, j :: 0 <= k < |Split(s, d)| ==> !OccursAt(Split(s, d)[k], d, j)
    decreases |s|
  {
    match Find(s, d)
    case None =>
    case Some(i) =>
      FindBound(s, d, i);
      SplitStep(s, d, i);
      OccursAtPrefix(s, d, i);
      SplitPiecesFree(s[i + |d|..], d);
  }

  /** Joining the pieces of a split with the separator rebuilds the string. */
  lemma {:induction false} JoinSplit(s: string, d: string)
    requires d != []
    ensures Join(Split(s, d), d) == s
    decreases |s|
  {
    match Find(s, d)
    case None =>
    case Some(i) =>
      FindBound(s, d, i);
      SplitStep(s, d, i);
      JoinSplit(s[i + |d|..], d);
      var rest := Split(s[i + |d|..], d);
      JoinCons(s[..i], rest, d);
      assert s == s[..i] + d + s[i + |d|..];
  }

  /** Joining pieces that do not contain the separator's first character and splitting again gives the pieces back. */
  lemma {:induction false} SplitJoin(xs: seq<string>, d: string)
    requires d != [] && |xs| >= 1
    requires forall k :: 0 <= k < |xs| ==> d[0] !in xs[k]
    ensures Split(Join(xs, d), d) == xs
    decreases |xs|
  {
    if |xs| == 1 {
      FindNone(xs[0], d);
    } else {
      var rest := Join(xs[1..], d);
      var s := xs[0] + d + rest;
      assert s[|xs[0]|..|xs[0]| + |d|] == d;
      FindAt(s, d, |xs[0]|);
      assert s[..|xs[0]|] == xs[0];
      assert s[|xs[0]| + |d|..] == rest;
      SplitJoin(xs[1..], d);
    }
  }

  /** One step of Split once the leftmost occurrence is known. */
  lemma SplitStep(s: string, d: string, i: nat)
    requires d != [] && Find(s, d) == Some(i) && i + |d| <= |s|
    ensures Split(s, d) == [s[..i]] + Split(s[i + |d|..], d)
  {
  }

  lemma FindBound(s: string, d: string, i: nat)
    requires d != [] && Find(s, d) == Some(i)
    ensures i + |d| <= |s|
  {
    assert OccursAt(s, d, i);
  }

  lemma DropAround(a: string, c: char, b: string, n: nat)
    requires n <= |a|
    ensures (a + [c] + b)[n..] == a[n..] + [c] + b
  {
  }

  /** With a one-character separator, splitting around one occurrence splits each side separately. */
  lemma {:induction false} SplitAround(a: string, c: char, b: string)
    ensures Split(a + [c] + b, [c]) == Split(a, [c]) + Split(b, [c])
    decreases |a|
  {
    var s := a + [c] + b;
    match Find(a, [c])
    case None =>
      SplitAroundFirst(a, c, b);
    case Some(i) =>
      DropAround(a, c, b, i + 1);
      SplitAround(a[i + 1..], c, b);
      SplitAroundLater(a, c, b, i);
  }

  /** When `a` holds a separator, the first cut is the same with or without the appended text. */
  lemma SplitAroundLater(a: string, c: char, b: string, i: nat)
    requires Find(a, [c]) == Some(i)
    requires Split(a[i + 1..] + [c] + b, [c]) == Split(a[i + 1..], [c]) + Split(b, [c])
    ensures Split(a + [c] + b, [c]) == Split(a, [c]) + Split(b, [c])
  {
    var s := a + [c] + b;
    FindAround(a, c, b, i);
    FindBound(s, [c], i);
    SplitStep(s, [c], i);
    FindBound(a, [c], i);
    SplitStep(a, [c], i);
    DropAround(a, c, b, i + 1);
    assert s[..i] == a[..i];
    ConsAppend(a[..i], Split(s, [c]), Split(a, [c]), Split(s[i + 1..], [c]), Split(a[i + 1..], [c]), Split(b, [c]));
  }

  lemma ConsAppend(p: string, whole: seq<string>, left: seq<string>, tail: seq<string>, x: seq<string>, y: seq<string>)
    requires whole == [p] + tail && tail == x + y && left == [p] + x
    ensures whole == left + y
  {
  }

  /** When `a` holds no separator, the added one is the first cut. */
  lemma SplitAroundFirst(a: string, c: char, b: string)
    requires Find(a, [c]) == None
    ensures Split(a + [c] + b, [c]) == [a] + Split(b, [c])
  {
    var s := a + [c] + b;
    OccursAtSingle(a, c);
    assert s[|a|..|a| + 1] == [c];
    assert forall j :: 0 <= j < |a| ==> s[j] == a[j] && a[j] != c;
    FindAt(s, [c], |a|);
    FindBound(s, [c], |a|);
    SplitStep(s, [c], |a|);
    assert s[..|a|] == a;
    assert s[|a| + 1..] == b;
  }

  /** The leftmost occurrence in `a` stays the leftmost once more text is appended. */
  lemma FindAround(a: string, c: char, b: string, i: nat)
    requires Find(a, [c]) == Some(i)
    ensures Find(a + [c] + b, [c]) == Some(i)
  {
    var s := a + [c] + b;
    OccursAtSingle(a, c);
    assert s[i..i + 1] == a[i..i + 1];
    assert forall j :: 0 <= j < i ==> s[j] == a[j] && a[j] != c;
    FindAt(s, [c], i);
  }

  /** Splitting a string that begins with one known character. */
  lemma SplitCons(x: char, t: string, c: char)
    ensures var r := Split(t, [c]);
      Split([x] + t, [c]) == if x == c then [""] + r else [[x] + r[0]] + r[1..]
  {
    if x == c {
      SplitAround([], c, t);
      assert [] + [c] + t == [x] + t;
    } else {
      var s := [x] + t;
      assert s[..1] != [c];
      assert s[1..] == t;
      match Find(t, [c])
      case None =>
      case Some(i) =>
        assert s[..i + 1] == [x] + t[..i];
        assert s[i + 2..] == t[i + 1..];
    }
  }

  /** An independent definition: split a string at every character that belongs to `seps`. */
  function SplitOnAny(s: string, seps: set<char>): (r: seq<string>)
    ensures |r| >= 1
    decreases |s|
  {
    if s == [] then [""]
    else
      var rest := SplitOnAny(s[1..], seps);
      if s[0] in seps then [""] + rest else [[s[0]] + rest[0]] + rest[1..]
  }

  /** Splitting on a one-character string is splitting at every occurrence of that character. */
  lemma {:induction false} SplitIsSplitOnAny(s: string, c: char)
    ensures Split(s, [c]) == SplitOnAny(s, {c})
    decreases |s|
  {
    if s != [] {
      assert s == [s[0]] + s[1..];
      SplitCons(s[0], s[1..], c);
      SplitIsSplitOnAny(s[1..], c);
    }
  }

  /** Python's `s.replace(target, replacement)` for a one-character `target`. */
  function Replace(s: string, target: char, replacement: string): (r: string)
    ensures target !in replacement ==> target !in r
    ensures target !in s ==> r == s
    ensures forall ch :: ch in r ==> ch in s || ch in replacement
    decreases |s|
  {
    if s == [] then ""
    else (if s[0] == target then replacement else [s[0]]) + Replace(s[1..], target, replacement)
  }

  lemma {:induction false} ReplaceAppend(a: string, b: string, target: char, replacement: string)
    ensures Replace(a + b, target, replacement) == Replace(a, target, replacement) + Replace(b, target, replacement)
    decreases |a|
  {
    if a == [] {
      assert a + b == b;
    } else {
      assert (a + b)[0] == a[0];
      assert (a + b)[1..] == a[1..] + b;
      ReplaceAppend(a[1..], b, target, replacement);
    }
  }

  /**
   * Rewriting every newline to a one-character separator and then splitting
   * on it is the same as splitting at the separator and at newlines at once.
   */
  lemma {:induction false} ReplaceThenSplit(s: string, c: char)
    ensures Split(Replace(s, '\n', [c]), [c]) == SplitOnAny(s, {c, '\n'})
    decreases |s|
  {
    if s != [] {
      var h := if s[0] == '\n' then c else s[0];
      assert Replace(s, '\n', [c]) == [h] + Replace(s[1..], '\n', [c]);
      SplitCons(h, Replace(s[1..], '\n', [c]), c);
      ReplaceThenSplit(s[1..], c);
    }
  }

  /** A character found neither in the separator nor in any piece is not in the join. */
  lemma {:induction false} JoinExcludes(xs: seq<string>, d: string, ch: char)
    requires ch !in d
    requires forall k :: 0 <= k < |xs| ==> ch !in xs[k]
    ensures ch !in Join(xs, d)
    decreases |xs|
  {
    if |xs| > 1 {
      JoinExcludes(xs[1..], d, ch);
    }
  }

  lemma JoinCons(x: string, r: seq<string>, d: string)
    requires |r| >= 1
    ensures Join([x] + r, d) == x + d + Join(r, d)
  {
    assert ([x] + r)[1..] == r;
  }

  lemma JoinFirstEmpty(r: seq<string>, d: string)
    requires |r| >= 1
    ensures Join([""] + r, d) == d + Join(r, d)
  {
    assert ([""] + r)[1..] == r;
  }

  lemma JoinFirstCons(x: char, r: seq<string>, d: string)
    requires |r| >= 1
    ensures Join([[x] + r[0]] + r[1..], d) == [x] + Join(r, d)
  {
    var xs := [[x] + r[0]] + r[1..];
    if |r| >= 2 {
      assert xs[1..] == r[1..];
    }
  }

  /**
   * An independent account of `str.replace`: cut the text at every `target`
   * and join the pieces with `replacement`, so each `target` becomes exactly
   * one `replacement` and nothing else changes.
   */
  lemma {:induction false} ReplaceIsJoinOfPieces(s: string, target: char, replacement: string)
    ensures Replace(s, target, replacement) == Join(SplitOnAny(s, {target}), replacement)
    decreases |s|
  {
    if s != [] {
      var r := SplitOnAny(s[1..], {target});
      ReplaceIsJoinOfPieces(s[1..], target, replacement);
      if s[0] == target {
        JoinFirstEmpty(r, replacement);
      } else {
        JoinFirstCons(s[0], r, replacement);
      }
    }
  }
}
