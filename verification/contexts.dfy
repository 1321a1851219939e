/**
  The conversation memory of the main loop: before every backend call the
  stored turns are walked newest to oldest and kept while the running count of
  characters stays within the budget, then the current prompt is appended.
  The kept turns are stored newest first, exactly as collected.
 */
module Contexts {

  /** The character budget of the stored turns (`limitChar`). */
  const LimitChar: int := 1700

  /** The number of characters in all turns together. */
  function TotalLength(xs: seq<string>): nat
  {
    if |xs| == 0 then 0 else |xs[0]| + TotalLength(xs[1..])
  }

  function Reverse<T>(xs: seq<T>): (r: seq<T>)
    ensures |r| == |xs|
  {
    if |xs| == 0 then [] else Reverse(xs[1..]) + [xs[0]]
  }

  lemma {:induction false} TotalLengthConcat(a: seq<string>, b: seq<string>)
    ensures TotalLength(a + b) == TotalLength(a) + TotalLength(b)
    decreases |a|
  {
    if |a| > 0 {
      assert (a + b)[1..] == a[1..] + b;
      TotalLengthConcat(a[1..], b);
    } else {
      assert a + b == b;
    }
  }

  lemma {:induction false} TotalLengthReverse(xs: seq<string>)
    ensures TotalLength(Reverse(xs)) == TotalLength(xs)
    decreases |xs|
  {
    if |xs| > 0 {
      TotalLengthReverse(xs[1..]);
      TotalLengthConcat(Reverse(xs[1..]), [xs[0]]);
    }
  }

  lemma {:induction false} ReverseConcat<T>(a: seq<T>, b: seq<T>)
    ensures Reverse(a + b) == Reverse(b) + Reverse(a)
    decreases |a|
  {
    if |a| > 0 {
      assert (a + b)[1..] == a[1..] + b;
      ReverseConcat(a[1..], b);
    } else {
      assert a + b == b;
    }
  }

  lemma {:induction false} ReverseReverse<T>(xs: seq<T>)
    ensures Reverse(Reverse(xs)) == xs
    decreases |xs|
  {
    if |xs| > 0 {
      ReverseConcat(Reverse(xs[1..]), [xs[0]]);
      ReverseReverse(xs[1..]);
      assert Reverse([xs[0]]) == [xs[0]];
    }
  }

  /**
    The longest prefix of `ys` whose total length is within `budget`: it keeps
    the budget, and the next element of `ys`, if any, would break it.
   */
  function WithinBudget(ys: seq<string>, budget: int): (r: seq<string>)
    ensures r <= ys
    ensures r == [] || TotalLength(r) <= budget
    ensures r == ys || TotalLength(ys[..|r| + 1]) > budget
    decreases |ys|
  {
    if |ys| == 0 || |ys[0]| > budget then []
    else
      var rest := WithinBudget(ys[1..], budget - |ys[0]|);
      assert rest == ys[1..] || ys[..|rest| + 2][1..] == ys[1..][..|rest| + 1];
      [ys[0]] + rest
  }

  /** Everything is kept when everything fits. */
  lemma {:induction false} WithinBudgetAll(ys: seq<string>, budget: int)
    requires TotalLength(ys) <= budget
    ensures WithinBudget(ys, budget) == ys
    decreases |ys|
  {
    if |ys| > 0 {
      WithinBudgetAll(ys[1..], budget - |ys[0]|);
    }
  }

  /**
    One more, older turn: it is kept exactly when the running total with it
    stays within budget, and then everything before it was kept too.
   */
  lemma WithinBudgetSnoc(ys: seq<string>, y: string, budget: int)
    ensures WithinBudget(ys + [y], budget) ==
      if TotalLength(ys) + |y| <= budget then ys + [y] else WithinBudget(ys, budget)
  {
    if TotalLength(ys) + |y| <= budget {
      TotalLengthConcat(ys, [y]);
      assert TotalLength([y]) == |y| + TotalLength([]);
      WithinBudgetAll(ys + [y], budget);
    } else {
      WithinBudgetSnocOver(ys, y, budget);
    }
  }

  /** A turn that breaks the budget changes nothing, wherever the cut falls. */
  lemma {:induction false} WithinBudgetSnocOver(ys: seq<string>, y: string, budget: int)
    requires TotalLength(ys) + |y| > budget
    ensures WithinBudget(ys + [y], budget) == WithinBudget(ys, budget)
    decreases |ys|
  {
    var zs := ys + [y];
    if |ys| == 0 {
      assert zs == [y];
      WithinBudgetUnfold(zs, budget);
    } else {
      var head, rest := ys[0], ys[1..];
      assert zs[0] == head && zs[1..] == rest + [y];
      assert TotalLength(ys) == |head| + TotalLength(rest);
      WithinBudgetUnfold(ys, budget);
      WithinBudgetUnfold(zs, budget);
      if |head| <= budget {
        WithinBudgetSnocOver(rest, y, budget - |head|);
      }
    }
  }

  /** One step of `WithinBudget`. */
  lemma WithinBudgetUnfold(ys: seq<string>, budget: int)
    requires |ys| > 0
    ensures WithinBudget(ys, budget) ==
      if |ys[0]| > budget then [] else [ys[0]] + WithinBudget(ys[1..], budget - |ys[0]|)
  {
  }

  /** The turns kept by the trim: newest first, the longest run within budget. */
  function Trimmed(contexts: seq<string>, limit: int): seq<string>
  {
    WithinBudget(Reverse(contexts), limit)
  }

  /**
    The trim loop as the source writes it: from the newest turn back, add each
    turn's length to a running total (also for the turns it skips) and keep the
    turn while the total is within the limit.
   */
  method TrimContext(contexts: seq<string>, limit: int) returns (trimmed: seq<string>)
    ensures trimmed == Trimmed(contexts, limit)
    ensures trimmed <= Reverse(contexts)
    ensures trimmed == [] || TotalLength(trimmed) <= limit
  {
    var total := 0;
    trimmed := [];
    var i := |contexts| - 1;
    while i >= 0
      invariant -1 <= i < |contexts|
      invariant total == TotalLength(contexts[i + 1..])
      invariant trimmed == WithinBudget(Reverse(contexts[i + 1..]), limit)
    {
      var turn := contexts[i];
      ghost var older := contexts[i + 1..];
      assert contexts[i..] == [turn] + older;
      assert Reverse(contexts[i..]) == Reverse(older) + [turn];
      TotalLengthReverse(older);
      WithinBudgetSnoc(Reverse(older), turn, limit);
      total := total + |turn|;
      if total <= limit {
        WithinBudgetAll(Reverse(older), limit);
        trimmed := trimmed + [turn];
      }
      assert trimmed == WithinBudget(Reverse(contexts[i..]), limit);
      assert total == TotalLength(contexts[i..]);
      i := i - 1;
    }
    assert contexts[0..] == contexts;
  }

  /** What the loop stores before the call: the trimmed turns, then the current prompt. */
  function AppendTurn(contexts: seq<string>, prompt: string, limit: int): (r: seq<string>)
    ensures |r| == |Trimmed(contexts, limit)| + 1 && |r| <= |contexts| + 1
    ensures r[|r| - 1] == prompt
    ensures r[..|r| - 1] <= Reverse(contexts)
    ensures r[..|r| - 1] == [] || TotalLength(r[..|r| - 1]) <= limit
  {
    var t := Trimmed(contexts, limit);
    assert (t + [prompt])[..|t|] == t;
    t + [prompt]
  }

  /**
    When nothing has to be dropped, every message still reverses the stored
    turns before appending: the memory is not kept in chronological order.
   */
  lemma AppendWithinBudgetReverses(contexts: seq<string>, prompt: string, limit: int)
    requires TotalLength(contexts) <= limit
    ensures AppendTurn(contexts, prompt, limit) == Reverse(contexts) + [prompt]
  {
    TotalLengthReverse(contexts);
    WithinBudgetAll(Reverse(contexts), limit);
  }

  /**
    Two messages in a row while everything fits: the earlier prompt ends up in
    front of all the older turns, which are back in their original order.
   */
  lemma TwoMessagesScramble(contexts: seq<string>, p: string, q: string, limit: int)
    requires TotalLength(contexts) + |p| <= limit
    ensures AppendTurn(AppendTurn(contexts, p, limit), q, limit) == [p] + contexts + [q]
  {
    AppendWithinBudgetReverses(contexts, p, limit);
    var once := Reverse(contexts) + [p];
    TotalLengthReverse(contexts);
    TotalLengthConcat(Reverse(contexts), [p]);
    assert TotalLength([p]) == |p|;
    AppendWithinBudgetReverses(once, q, limit);
    ReverseConcat(Reverse(contexts), [p]);
    ReverseReverse(contexts);
    assert Reverse([p]) == [p];
  }
}
