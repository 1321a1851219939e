/**
  `LimitedSlice`: a fixed number of string slots written round-robin, where the
  empty string marks a slot that holds nothing. `Get` reads the slots oldest
  first, starting at the cursor (the slot written longest ago).
 */
module Limited {
  import opened Strs

  datatype LimitedSlice = LimitedSlice(data: seq<string>, limit: int, cursor: int) {

    /** One slot per unit of capacity, and the cursor on a slot (or 0 when there are none). */
    predicate Valid() {
      && 0 <= limit
      && |data| == limit
      && (if limit == 0 then cursor == 0 else 0 <= cursor < limit)
    }
  }

  /** `NewLimitedSlice`: every slot empty, cursor at the first slot. */
  function New(limit: int): (ls: LimitedSlice)
    requires 0 <= limit
    ensures ls.Valid() && ls.limit == limit && ls.cursor == 0
    ensures forall i :: 0 <= i < limit ==> ls.data[i] == ""
  {
    LimitedSlice(seq(limit, _ => ""), limit, 0)
  }

  /** The slots in the order they were written: from the cursor round to just before it. */
  function Slots(ls: LimitedSlice): (r: seq<string>)
    requires ls.Valid()
    ensures |r| == ls.limit
  {
    ls.data[ls.cursor..] + ls.data[..ls.cursor]
  }

  /** Euclidean division has one quotient and one remainder. */
  lemma ModUnique(x: int, n: int, q: int, r: int)
    requires 0 < n && 0 <= r < n && x == q * n + r
    ensures x % n == r && x / n == q
  {
    var q', r' := x / n, x % n;
    assert (q' - q) * n == r - r';
    if q' > q {
      MulAtLeast(q' - q, n);
    } else if q' < q {
      MulAtLeast(q - q', n);
    }
  }

  lemma MulAtLeast(k: int, n: int)
    requires 1 <= k && 0 < n
    ensures k * n >= n
  {
  }

  /** Stepping a cursor that is already reduced agrees with reducing the stepped count. */
  lemma ModSucc(a: nat, n: int)
    requires 0 < n
    ensures (a % n + 1) % n == (a + 1) % n
  {
    var q := a / n;
    var r := a % n;
    if r + 1 < n {
      ModUnique(a + 1, n, q, r + 1);
      ModUnique(r + 1, n, 0, r + 1);
    } else {
      ModUnique(a + 1, n, q + 1, 0);
      ModUnique(r + 1, n, 1, 0);
    }
  }

  /** Slot `i` in written order is the `i`-th slot after the cursor, round the ring. */
  lemma SlotAt(ls: LimitedSlice, i: int)
    requires ls.Valid() && 0 <= i < ls.limit
    ensures Slots(ls)[i] == ls.data[(ls.cursor + i) % ls.limit]
  {
    if ls.cursor + i < ls.limit {
      ModUnique(ls.cursor + i, ls.limit, 0, ls.cursor + i);
      assert Slots(ls)[i] == ls.data[ls.cursor..][i];
    } else {
      ModUnique(ls.cursor + i, ls.limit, 1, ls.cursor + i - ls.limit);
      assert Slots(ls)[i] == ls.data[..ls.cursor][i - (ls.limit - ls.cursor)];
    }
  }

  /** What `Get` returns: the occupied slots, oldest first. */
  function Snapshot(ls: LimitedSlice): (r: seq<string>)
    requires ls.Valid()
    ensures |r| <= ls.limit
  {
    NonEmpty(Slots(ls))
  }

  /**
    `Add`: overwrite the slot under the cursor and advance the cursor round the
    ring. With no slots at all the source indexes out of range, so a slice
    without capacity cannot be added to.
   */
  function Add(ls: LimitedSlice, element: string): (r: LimitedSlice)
    requires ls.Valid() && ls.limit > 0
    ensures r.Valid() && r.limit == ls.limit
    ensures r.cursor == (ls.cursor + 1) % ls.limit
    ensures Slots(r) == Slots(ls)[1..] + [element]
  {
    var r := LimitedSlice(ls.data[ls.cursor := element], ls.limit, (ls.cursor + 1) % ls.limit);
    WrittenSlots(ls, element);
    r
  }

  /** Overwriting the slot under the cursor and stepping on drops the oldest slot and appends. */
  lemma WrittenSlots(ls: LimitedSlice, element: string)
    requires ls.Valid() && ls.limit > 0
    ensures var r := LimitedSlice(ls.data[ls.cursor := element], ls.limit, (ls.cursor + 1) % ls.limit);
      r.Valid() && Slots(r) == Slots(ls)[1..] + [element]
  {
    var r := LimitedSlice(ls.data[ls.cursor := element], ls.limit, (ls.cursor + 1) % ls.limit);
    var n := ls.limit;
    var c := ls.cursor;
    assert Slots(ls) == ls.data[c..] + ls.data[..c];
    assert ls.data[c..] == [ls.data[c]] + ls.data[c + 1..];
    if c + 1 < n {
      ModUnique(c + 1, n, 0, c + 1);
      assert r.cursor == c + 1;
      assert r.data[c + 1..] == ls.data[c + 1..];
      assert r.data[..c + 1] == ls.data[..c] + [element];
    } else {
      ModUnique(c + 1, n, 1, 0);
      assert r.cursor == 0;
      assert r.data == ls.data[..c] + [element];
    }
  }

  /**
    `Get` as the source writes it: walk `limit` steps from the cursor round the
    ring and keep every slot that is not empty.
   */
  method Get(ls: LimitedSlice) returns (result: seq<string>)
    requires ls.Valid()
    ensures result == Snapshot(ls)
    ensures |result| <= ls.limit
    ensures forall k :: 0 <= k < |result| ==> result[k] != ""
  {
    result := [];
    var i := 0;
    while i < ls.limit
      invariant 0 <= i <= ls.limit
      invariant result == NonEmpty(Slots(ls)[..i])
    {
      var idx := (ls.cursor + i) % ls.limit;
      SlotAt(ls, i);
      assert Slots(ls)[..i + 1] == Slots(ls)[..i] + [ls.data[idx]];
      NonEmptyConcat(Slots(ls)[..i], [ls.data[idx]]);
      if ls.data[idx] != "" {
        result := result + [ls.data[idx]];
      }
      i := i + 1;
    }
    assert Slots(ls)[..ls.limit] == Slots(ls);
  }

  /** Adding a whole history of elements in order. */
  function AddAll(ls: LimitedSlice, history: seq<string>): (r: LimitedSlice)
    requires ls.Valid() && ls.limit > 0
    ensures r.Valid() && r.limit == ls.limit
    decreases |history|
  {
    if |history| == 0 then ls
    else AddAll(Add(ls, history[0]), history[1..])
  }

  /** The last `n` elements of a history (all of it when it is shorter). */
  function Latest(history: seq<string>, n: nat): (r: seq<string>)
    ensures |r| <= n && |r| <= |history|
  {
    if |history| <= n then history else history[|history| - n..]
  }

  /**
    What the slots of a fresh ring hold after a history of adds: the slots the
    history has not reached yet stay empty, followed by the latest elements.
   */
  function Window(history: seq<string>, n: nat): (r: seq<string>)
  {
    if |history| <= n then seq(n - |history|, _ => "") + history
    else history[|history| - n..]
  }

  lemma WindowSnoc(history: seq<string>, e: string, n: nat)
    requires n > 0
    ensures Window(history + [e], n) == Window(history, n)[1..] + [e]
  {
    var h := history;
    if |h| < n {
      assert seq(n - |h|, _ => "")[1..] == seq(n - |h| - 1, _ => "");
      assert Window(h, n)[1..] == seq(n - |h| - 1, _ => "") + h;
    } else {
      assert (h + [e])[|h| + 1 - n..] == h[|h| - n..][1..] + [e];
    }
  }

  /** The cursor and slots of a ring that was fed `more` after `history`. */
  lemma {:induction false} AddAllSlots(ls: LimitedSlice, history: seq<string>, more: seq<string>)
    requires ls.Valid() && ls.limit > 0
    requires Slots(ls) == Window(history, ls.limit)
    requires ls.cursor == |history| % ls.limit
    ensures Slots(AddAll(ls, more)) == Window(history + more, ls.limit)
    ensures AddAll(ls, more).cursor == |history + more| % ls.limit
    decreases |more|
  {
    if |more| == 0 {
      assert history + more == history;
    } else {
      var n := ls.limit;
      WindowSnoc(history, more[0], n);
      ModSucc(|history|, n);
      assert history + more == (history + [more[0]]) + more[1..];
      AddAllSlots(Add(ls, more[0]), history + [more[0]], more[1..]);
    }
  }

  /**
    The ring's whole promise: after any history of adds to a fresh slice of
    capacity `n`, `Get` returns the non-empty elements among the last `n` added,
    oldest first; empty adds never show, and older elements are gone.
   */
  lemma GetAfterHistory(n: int, history: seq<string>)
    requires n > 0
    ensures Snapshot(AddAll(New(n), history)) == NonEmpty(Latest(history, n))
    ensures |Snapshot(AddAll(New(n), history))| <= n
    ensures AddAll(New(n), history).cursor == |history| % n
  {
    var ls := New(n);
    assert Slots(ls) == ls.data;
    assert Window([], n) == ls.data;
    AddAllSlots(ls, [], history);
    assert [] + history == history;
    if |history| <= n {
      var blanks := seq(n - |history|, _ => "");
      assert Window(history, n) == blanks + history;
      NonEmptyConcat(blanks, history);
      NonEmptyBlanks(n - |history|);
      assert NonEmpty(blanks) + NonEmpty(history) == NonEmpty(history);
    }
  }

  lemma {:induction false} NonEmptyBlanks(k: nat)
    ensures NonEmpty(seq(k, _ => "")) == []
  {
    if k > 0 {
      assert seq(k, _ => "")[1..] == seq(k - 1, _ => "");
      NonEmptyBlanks(k - 1);
    }
  }

  /** An empty add shows nothing new; it only pushes the oldest slot out. */
  lemma AddEmptyIsInvisible(ls: LimitedSlice)
    requires ls.Valid() && ls.limit > 0
    ensures Snapshot(Add(ls, "")) == NonEmpty(Slots(ls)[1..])
    ensures |Snapshot(Add(ls, ""))| <= |Snapshot(ls)|
  {
    NonEmptyConcat(Slots(ls)[1..], [""]);
    assert Slots(ls) == [Slots(ls)[0]] + Slots(ls)[1..];
    NonEmptyConcat([Slots(ls)[0]], Slots(ls)[1..]);
  }
}
