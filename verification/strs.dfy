/**
  The parts of Go's `strings` package the bot relies on: `Index`, `Contains`,
  `Split` and `Join`, over strings taken as sequences of bytes, together with the
  facts that let the event store be read back after it is written.
 */
module Strs {

  /** `d` occurs in `s` starting at position `j`. */
  predicate OccursAt(s: string, d: string, j: int) {
    0 <= j && j + |d| <= |s| && s[j..j + |d|] == d
  }

  /** `strings.Index`: the leftmost position at which `d` occurs in `s`, or -1. */
  function Index(s: string, d: string): (r: int)
    ensures r == -1 || OccursAt(s, d, r)
    decreases |s|
  {
    if |s| < |d| then -1
    else if s[..|d|] == d then 0
    else
      var r := Index(s[1..], d);
      if r < 0 then -1
      else
        ShiftOccurrence(s, d, r + 1);
        r + 1
  }

  /** An occurrence past the first byte of `s` is an occurrence in `s[1..]`. */
  lemma ShiftOccurrence(s: string, d: string, j: int)
    requires 0 < |s| && 1 <= j
    ensures OccursAt(s, d, j) <==> OccursAt(s[1..], d, j - 1)
  {
    if j + |d| <= |s| {
      assert s[1..][j - 1..j - 1 + |d|] == s[j..j + |d|];
    }
  }

  /** No occurrence starts before the one `Index` reports, and -1 means there is none. */
  lemma {:induction false} IndexIsLeftmost(s: string, d: string)
    ensures 0 <= Index(s, d) ==> forall j :: 0 <= j < Index(s, d) ==> !OccursAt(s, d, j)
    ensures Index(s, d) == -1 ==> forall j :: !OccursAt(s, d, j)
    decreases |s|
  {
    if |s| < |d| {
      assert forall j :: !OccursAt(s, d, j);
    } else if s[..|d|] != d {
      var r := Index(s[1..], d);
      assert Index(s, d) == if r < 0 then -1 else r + 1;
      IndexIsLeftmost(s[1..], d);
      assert !OccursAt(s, d, 0);
      forall j | 1 <= j
        ensures OccursAt(s, d, j) <==> OccursAt(s[1..], d, j - 1)
      {
        ShiftOccurrence(s, d, j);
      }
    }
  }

  /** `strings.Contains`. */
  function Contains(s: string, d: string): bool
  {
    Index(s, d) >= 0
  }

  /** `s` contains `d` exactly when `d` occurs somewhere in it. */
  lemma ContainsOccurs(s: string, d: string)
    ensures Contains(s, d) <==> exists j :: OccursAt(s, d, j)
  {
    IndexIsLeftmost(s, d);
  }

  /** The leftmost occurrence is the one `Index` reports. */
  lemma IndexUnique(s: string, d: string, m: int)
    requires OccursAt(s, d, m)
    requires forall j :: 0 <= j < m ==> !OccursAt(s, d, j)
    ensures Index(s, d) == m
  {
    IndexIsLeftmost(s, d);
  }

  /** Occurrences that end within `u` are the same in `u` and in `u + t`. */
  lemma OccursInPrefix(u: string, t: string, d: string, j: int)
    requires 0 <= j && j + |d| <= |u|
    ensures OccursAt(u + t, d, j) <==> OccursAt(u, d, j)
  {
    assert (u + t)[j..j + |d|] == u[j..j + |d|];
  }

  /** Extending a string past its first occurrence of `d` does not move that occurrence. */
  lemma IndexOfExtension(u: string, t: string, d: string)
    requires 0 <= Index(u, d)
    ensures Index(u + t, d) == Index(u, d)
  {
    var m := Index(u, d);
    IndexIsLeftmost(u, d);
    OccursInPrefix(u, t, d, m);
    forall j | 0 <= j < m
      ensures !OccursAt(u + t, d, j)
    {
      OccursInPrefix(u, t, d, j);
    }
    IndexUnique(u + t, d, m);
  }

  /** An occurrence found within a prefix is also the first occurrence in that prefix. */
  lemma IndexOfPrefix(u: string, t: string, d: string)
    requires 0 <= Index(u + t, d) && Index(u + t, d) + |d| <= |u|
    ensures Index(u, d) == Index(u + t, d)
  {
    var m := Index(u + t, d);
    IndexIsLeftmost(u + t, d);
    OccursInPrefix(u, t, d, m);
    forall j | 0 <= j < m
      ensures !OccursAt(u, d, j)
    {
      OccursInPrefix(u, t, d, j);
    }
    IndexUnique(u, d, m);
  }

  /**
    `strings.Split(s, d)` for a non-empty separator: the pieces between the
    leftmost non-overlapping occurrences of `d`. There is always at least one
    piece; the empty string splits into one empty piece.
   */
  function Split(s: string, d: string): (ps: seq<string>)
    requires |d| > 0
    ensures |ps| >= 1
    decreases |s|
  {
    var m := Index(s, d);
    if m < 0 then [s] else [s[..m]] + Split(s[m + |d|..], d)
  }

  /** `strings.Join`: the pieces with `d` between neighbours. */
  function Join(ps: seq<string>, d: string): string
  {
    if |ps| == 0 then ""
    else if |ps| == 1 then ps[0]
    else ps[0] + d + Join(ps[1..], d)
  }

  /** The last element of a non-empty sequence. */
  function Last<T>(xs: seq<T>): T
    requires |xs| > 0
  {
    xs[|xs| - 1]
  }

  /** The pieces of a sequence that are not the empty string, in order. */
  function NonEmpty(xs: seq<string>): (r: seq<string>)
    ensures |r| <= |xs|
    ensures forall i :: 0 <= i < |r| ==> r[i] != ""
  {
    if |xs| == 0 then []
    else (if xs[0] == "" then [] else [xs[0]]) + NonEmpty(xs[1..])
  }

  /** An empty last element adds nothing to the filter. */
  lemma NonEmptyEmptyLast(xs: seq<string>)
    requires |xs| > 0 && xs[|xs| - 1] == ""
    ensures NonEmpty(xs) == NonEmpty(xs[..|xs| - 1])
    ensures |NonEmpty(xs)| < |xs|
  {
    var init := xs[..|xs| - 1];
    assert xs == init + [""];
    NonEmptyConcat(init, [""]);
    assert NonEmpty([""]) == [] + NonEmpty([""][1..]);
  }

  /** Filtering distributes over concatenation. */
  lemma {:induction false} NonEmptyConcat(a: seq<string>, b: seq<string>)
    ensures NonEmpty(a + b) == NonEmpty(a) + NonEmpty(b)
    decreases |a|
  {
    if |a| > 0 {
      assert (a + b)[1..] == a[1..] + b;
      NonEmptyConcat(a[1..], b);
    } else {
      assert a + b == b;
    }
  }

  /** Filtering around one position. */
  lemma {:induction false} NonEmptyAround(xs: seq<string>, i: int)
    requires 0 <= i < |xs|
    ensures NonEmpty(xs) == NonEmpty(xs[..i]) + NonEmpty([xs[i]]) + NonEmpty(xs[i + 1..])
  {
    var pre, mid, post := xs[..i], [xs[i]], xs[i + 1..];
    assert xs == (pre + mid) + post;
    NonEmptyConcat(pre + mid, post);
    NonEmptyConcat(pre, mid);
    assert NonEmpty(xs) == (NonEmpty(pre) + NonEmpty(mid)) + NonEmpty(post);
  }

  /** A sequence with no empty element is left as it is by the filter. */
  lemma {:induction false} NonEmptyOfNonEmpty(xs: seq<string>)
    requires forall i :: 0 <= i < |xs| ==> xs[i] != ""
    ensures NonEmpty(xs) == xs
    decreases |xs|
  {
    if |xs| > 0 {
      NonEmptyOfNonEmpty(xs[1..]);
    }
  }

  /** Joining is associative over a split of the list of pieces. */
  lemma {:induction false} JoinConcat(a: seq<string>, b: seq<string>, d: string)
    requires |a| > 0 && |b| > 0
    ensures Join(a + b, d) == Join(a, d) + d + Join(b, d)
    decreases |a|
  {
    if |a| == 1 {
      assert (a + b)[1..] == b;
    } else {
      assert (a + b)[1..] == a[1..] + b;
      JoinConcat(a[1..], b, d);
    }
  }

  /** Joining a tail of the pieces gives a suffix of the joined string. */
  lemma JoinOfTail(ps: seq<string>, k: nat, d: string)
    requires 0 < k < |ps|
    ensures Join(ps, d) == Join(ps[..k], d) + d + Join(ps[k..], d)
  {
    assert ps == ps[..k] + ps[k..];
    JoinConcat(ps[..k], ps[k..], d);
  }

  /** Round trip: joining the pieces of a split gives back the string. */
  lemma {:induction false} JoinSplit(s: string, d: string)
    requires |d| > 0
    ensures Join(Split(s, d), d) == s
    decreases |s|
  {
    var m := Index(s, d);
    if m >= 0 {
      assert OccursAt(s, d, m);
      var head, rest := s[..m], s[m + |d|..];
      SplitUnfold(s, d);
      JoinSplit(rest, d);
      var ps := Split(rest, d);
      var whole := [head] + ps;
      assert whole[0] == head && whole[1..] == ps;
      assert Join(whole, d) == head + d + Join(ps, d);
      assert s == head + s[m..m + |d|] + rest;
    }
  }

  /** `p` followed by `d` splits exactly at that `d`: no occurrence starts inside `p`. */
  predicate Separable(p: string, d: string) {
    Index(p + d, d) == |p|
  }

  /**
    A list that `Split` can give back after `Join`: no piece contains the
    separator, and no piece but the last runs into the separator that follows it.
   */
  predicate Pieces(ps: seq<string>, d: string) {
    && (forall i :: 0 <= i < |ps| ==> !Contains(ps[i], d))
    && (forall i :: 0 <= i < |ps| - 1 ==> Separable(ps[i], d))
  }

  /** A separable piece does not contain the separator. */
  lemma SeparableHasNoSeparator(p: string, d: string)
    requires |d| > 0 && Separable(p, d)
    ensures !Contains(p, d)
  {
    if Index(p, d) >= 0 {
      IndexOfExtension(p, d, d);
    }
  }

  /** A piece none of whose bytes starts the separator is separable and separator-free. */
  lemma SeparableWhenFree(p: string, d: string)
    requires |d| > 0
    requires forall i :: 0 <= i < |p| ==> p[i] != d[0]
    ensures Separable(p, d) && !Contains(p, d)
  {
    assert (p + d)[|p|..|p| + |d|] == d;
    assert OccursAt(p + d, d, |p|);
    forall j | 0 <= j < |p|
      ensures !OccursAt(p + d, d, j)
    {
      assert (p + d)[j] == p[j];
    }
    IndexUnique(p + d, d, |p|);
    SeparableHasNoSeparator(p, d);
  }

  /** `Pieces` of a list with a head, in terms of the head and the tail. */
  lemma PiecesCons(p: string, qs: seq<string>, d: string)
    ensures Pieces([p] + qs, d) <==>
      !Contains(p, d) && (|qs| > 0 ==> Separable(p, d)) && Pieces(qs, d)
  {
    var ps := [p] + qs;
    assert ps[0] == p;
    assert forall i :: 0 <= i < |qs| ==> ps[i + 1] == qs[i];
    if Pieces(ps, d) {
      forall i | 0 <= i < |qs|
        ensures !Contains(qs[i], d)
      {
        assert ps[i + 1] == qs[i];
      }
      forall i | 0 <= i < |qs| - 1
        ensures Separable(qs[i], d)
      {
        assert ps[i + 1] == qs[i];
      }
    }
  }

  /** A tail of pieces is pieces. */
  lemma PiecesTail(ps: seq<string>, k: nat, d: string)
    requires Pieces(ps, d) && k <= |ps|
    ensures Pieces(ps[k..], d)
  {
    assert forall i :: 0 <= i < |ps| - k ==> ps[k..][i] == ps[k + i];
  }

  /** What `Split` returns always has the shape `Pieces` describes. */
  lemma {:induction false} SplitPieces(s: string, d: string)
    requires |d| > 0
    ensures Pieces(Split(s, d), d)
    decreases |s|
  {
    var m := Index(s, d);
    if m >= 0 {
      var p := s[..m];
      var rest := s[m + |d|..];
      assert s == (p + d) + rest;
      IndexOfPrefix(p + d, rest, d);
      SeparableHasNoSeparator(p, d);
      SplitPieces(rest, d);
      PiecesCons(p, Split(rest, d), d);
    }
  }

  /** Round trip the other way: pieces survive a join followed by a split. */
  lemma {:induction false} SplitJoin(ps: seq<string>, d: string)
    requires |d| > 0 && |ps| >= 1 && Pieces(ps, d)
    ensures Split(Join(ps, d), d) == ps
    decreases |ps|
  {
    if |ps| > 1 {
      var p := ps[0];
      var rest := Join(ps[1..], d);
      assert ps == [p] + ps[1..];
      PiecesCons(p, ps[1..], d);
      assert Join(ps, d) == (p + d) + rest;
      IndexOfExtension(p + d, rest, d);
      assert ((p + d) + rest)[..|p|] == p;
      assert ((p + d) + rest)[|p| + |d|..] == rest;
      SplitJoin(ps[1..], d);
    }
  }

  /** A split tail, joined and split again, is the same tail. */
  lemma SplitJoinTail(s: string, k: nat, d: string)
    requires |d| > 0 && k < |Split(s, d)|
    ensures Split(Join(Split(s, d)[k..], d), d) == Split(s, d)[k..]
  {
    SplitPieces(s, d);
    PiecesTail(Split(s, d), k, d);
    SplitJoin(Split(s, d)[k..], d);
  }

  /**
    Splitting a string with something appended: every piece but the last is
    unchanged, and the last piece is split again together with the addition.
   */
  lemma {:induction false} SplitConcat(x: string, t: string, d: string)
    requires |d| > 0
    ensures Split(x + t, d) ==
      Split(x, d)[..|Split(x, d)| - 1] + Split(Last(Split(x, d)) + t, d)
    decreases |x|
  {
    var m := Index(x, d);
    if m >= 0 {
      var p := x[..m];
      var rest := x[m + |d|..];
      var ps := Split(rest, d);
      SplitAtFirst(x, t, d);
      SplitConcat(rest, t, d);
      assert Split(x, d) == [p] + ps;
      assert Last(Split(x, d)) == Last(ps);
      assert Split(x, d)[..|Split(x, d)| - 1] == [p] + ps[..|ps| - 1];
    } else {
      assert Split(x, d)[..0] == [];
    }
  }

  /** Appending after a string that contains `d` leaves its first piece in place. */
  lemma SplitAtFirst(x: string, t: string, d: string)
    requires |d| > 0 && 0 <= Index(x, d)
    ensures var m := Index(x, d);
      Split(x + t, d) == [x[..m]] + Split(x[m + |d|..] + t, d)
  {
    var m := Index(x, d);
    IndexOfExtension(x, t, d);
    SlicesOfConcat(x, t, m, m + |d|);
    SplitUnfoldAs(x + t, d, x[..m], x[m + |d|..] + t);
  }

  /** One unfolding of `Split`, with the first piece and the rest named. */
  lemma SplitUnfoldAs(y: string, d: string, head: string, tail: string)
    requires |d| > 0 && 0 <= Index(y, d)
    requires head == y[..Index(y, d)] && tail == y[Index(y, d) + |d|..]
    ensures Split(y, d) == [head] + Split(tail, d)
  {
    SplitUnfold(y, d);
  }

  /** One unfolding of `Split` at the first occurrence. */
  lemma SplitUnfold(y: string, d: string)
    requires |d| > 0 && 0 <= Index(y, d)
    ensures Split(y, d) == [y[..Index(y, d)]] + Split(y[Index(y, d) + |d|..], d)
  {
  }

  /** Cutting a concatenation within its first part. */
  lemma SlicesOfConcat(x: string, t: string, i: nat, j: nat)
    requires i <= j <= |x|
    ensures (x + t)[..i] == x[..i] && (x + t)[j..] == x[j..] + t
  {
  }

  /**
    A text without the separator is one piece; otherwise the first piece is
    what precedes the leftmost separator.
   */
  lemma SplitFirst(s: string, d: string)
    requires |d| > 0
    ensures !Contains(s, d) ==> Split(s, d) == [s]
    ensures Contains(s, d) ==> |Split(s, d)| >= 2 && Split(s, d)[0] + d <= s
  {
  }

  /** A join starts with the first piece and ends with the last. */
  lemma {:induction false} JoinEnds(ps: seq<string>, d: string)
    requires |ps| > 0
    ensures ps[0] <= Join(ps, d) && IsSuffix(Last(ps), Join(ps, d))
    ensures |ps| > 1 ==> |Join(ps, d)| >= |ps[0]| + |d| + |Last(ps)|
    decreases |ps|
  {
    if |ps| > 1 {
      JoinEnds(ps[1..], d);
      assert Last(ps[1..]) == Last(ps);
    }
  }

  /** `a` is a suffix of `b`. */
  predicate IsSuffix(a: string, b: string) {
    |a| <= |b| && b[|b| - |a|..] == a
  }

  /** A string none of whose bytes starts the separator splits into itself alone. */
  lemma {:induction false} SplitFree(s: string, d: string)
    requires |d| > 0
    requires forall i :: 0 <= i < |s| ==> s[i] != d[0]
    ensures Index(s, d) == -1 && Split(s, d) == [s]
    decreases |s|
  {
    if |s| >= |d| {
      assert s[..|d|][0] != d[0];
      var t := s[1..];
      assert forall i :: 0 <= i < |t| ==> t[i] == s[i + 1];
      SplitFree(t, d);
    }
  }

  /** A separable first piece is split off exactly where it ends. */
  lemma SplitAfterSeparable(p: string, rest: string, d: string)
    requires |d| > 0 && Separable(p, d)
    ensures Split(p + d + rest, d) == [p] + Split(rest, d)
  {
    IndexOfExtension(p + d, rest, d);
    assert (p + d + rest)[..|p|] == p;
    assert (p + d + rest)[|p| + |d|..] == rest;
  }

  /**
    Appending `e` and then `d` to `s`, when the last piece of `s` followed by
    `e` does not complete an earlier `d`: the last piece grows by `e` and an
    empty piece follows; all earlier pieces are unchanged.
   */
  lemma SplitAppendPiece(s: string, e: string, d: string)
    requires |d| > 0 && Separable(Last(Split(s, d)) + e, d)
    ensures var ps := Split(s, d);
      Split(s + (e + d), d) == ps[..|ps| - 1] + [Last(ps) + e, ""]
  {
    var ps := Split(s, d);
    var q := Last(ps);
    SplitConcat(s, e + d, d);
    var tail := Split(q + (e + d), d);
    assert Split(s + (e + d), d) == ps[..|ps| - 1] + tail;
    ConcatAssoc(q, e, d);
    SplitSeparableEnd(q + e, d);
    assert tail == [q + e, ""];
  }

  /** A separable piece followed by the separator splits into the piece and an empty piece. */
  lemma SplitSeparableEnd(p: string, d: string)
    requires |d| > 0 && Separable(p, d)
    ensures Split(p + d, d) == [p, ""]
  {
    var m := Index(p + d, d);
    assert (p + d)[..m] == p;
    assert (p + d)[m + |d|..] == "";
    SplitEmpty(d);
  }

  lemma ConcatAssoc(a: string, b: string, c: string)
    ensures a + (b + c) == (a + b) + c
  {
  }

  lemma SplitEmpty(d: string)
    requires |d| > 0
    ensures Split("", d) == [""]
  {
    assert Index("", d) == -1;
  }

  /** A list of pieces ending in `a` and an empty piece joins into a string ending in `a + d`. */
  lemma JoinEndsWith(qs: seq<string>, a: string, d: string)
    requires |qs| >= 2 && qs[|qs| - 2..] == [a, ""]
    ensures IsSuffix(a + d, Join(qs, d))
  {
    var k := |qs| - 2;
    assert Join([a, ""], d) == a + d + "";
    assert a + d + "" == a + d;
    if k > 0 {
      JoinOfTail(qs, k, d);
      var front := Join(qs[..k], d) + d;
      assert Join(qs, d) == front + (a + d);
      assert (front + (a + d))[|front|..] == a + d;
    } else {
      assert qs == [a, ""];
    }
  }

  /** A suffix stays a suffix when more is put in front. */
  lemma IsSuffixPrepend(a: string, b: string, c: string)
    requires IsSuffix(a, b)
    ensures IsSuffix(a, c + b)
  {
    assert (c + b)[|c + b| - |a|..] == b[|b| - |a|..];
  }
}
