/**
  The per-minute throttle: a count of messages per "15:04" minute label. Every
  update bumps its minute's count as soon as it arrives; a message that reaches
  the backend stage with its minute's count at or above the cap stalls the whole
  loop until the next minute boundary and then forgets all counts.
 */
module Rate {

  /** A Go map read: a missing minute reads as 0. */
  function Count(buckets: map<string, int>, minute: string): int
  {
    if minute in buckets then buckets[minute] else 0
  }

  /** `lastChatTime[minute]++`: only this minute's count moves, by exactly one. */
  function Tick(buckets: map<string, int>, minute: string): (r: map<string, int>)
    ensures Count(r, minute) == Count(buckets, minute) + 1
    ensures r.Keys == buckets.Keys + {minute}
    ensures forall k :: k in buckets && k != minute ==> r[k] == buckets[k]
  {
    buckets[minute := Count(buckets, minute) + 1]
  }

  /** The outcome of the cap check: the counts kept and the seconds slept (0 for none). */
  datatype Admission = Admission(buckets: map<string, int>, sleep: int)

  /**
    The cap check: at or above the cap, sleep out the rest of the minute and
    clear every count; below it, go on at once and change nothing.
   */
  function Admit(buckets: map<string, int>, minute: string, second: int, cap: int): (a: Admission)
    requires 0 <= second < 60
    ensures a.sleep > 0 <==> Count(buckets, minute) >= cap
    ensures a.sleep > 0 ==> 1 <= a.sleep <= 60 && a.sleep + second == 60 && a.buckets == map[]
    ensures a.sleep == 0 ==> a.buckets == buckets
  {
    if Count(buckets, minute) >= cap then Admission(map[], 60 - second) else Admission(buckets, 0)
  }

  /** `n` ordinary messages arriving within one minute: the counts after them and how many stalled. */
  function Burst(buckets: map<string, int>, minute: string, second: int, cap: int, n: nat): (map<string, int>, nat)
    requires 0 <= second < 60
  {
    if n == 0 then (buckets, 0)
    else
      var (before, stalls) := Burst(buckets, minute, second, cap, n - 1);
      var a := Admit(Tick(before, minute), minute, second, cap);
      (a.buckets, stalls + if a.sleep > 0 then 1 else 0)
  }

  /** A burst seen from its first message: that message's admission, then the rest of the burst. */
  lemma {:induction false} BurstFront(buckets: map<string, int>, minute: string, second: int, cap: int, n: nat)
    requires 0 <= second < 60
    ensures var a := Admit(Tick(buckets, minute), minute, second, cap);
      var rest := Burst(a.buckets, minute, second, cap, n);
      Burst(buckets, minute, second, cap, n + 1) == (rest.0, rest.1 + if a.sleep > 0 then 1 else 0)
    decreases n
  {
    if n > 0 {
      BurstFront(buckets, minute, second, cap, n - 1);
    }
  }

  /** The counts left after `r` messages past the last stall. */
  function Residue(minute: string, r: nat): map<string, int>
  {
    if r == 0 then map[] else map[minute := r]
  }

  /**
    With a positive cap, starting from no counts, message number `q * cap + r`
    (for `r < cap`) has stalled exactly `q` times: every `cap`-th message of a
    minute stalls, so no more than `cap - 1` messages get through between stalls.
   */
  lemma BurstStallsEveryCapth(minute: string, second: int, cap: int, q: nat, r: nat)
    requires 0 <= second < 60
    requires 0 <= r < cap
    ensures Burst(map[], minute, second, cap, q * cap + r) == (Residue(minute, r), q)
  {
    BurstRounds(minute, second, cap, q * cap + r, q, r);
  }

  /** The same count, with the message number `n` named so that each step is linear in it. */
  lemma {:induction false} BurstRounds(minute: string, second: int, cap: int, n: nat, q: nat, r: nat)
    requires 0 <= second < 60
    requires 0 <= r < cap && n == q * cap + r
    ensures Burst(map[], minute, second, cap, n) == (Residue(minute, r), q)
    decreases n
  {
    if r > 0 {
      BurstRounds(minute, second, cap, n - 1, q, r - 1);
      BurstCounts(minute, second, cap, n, q, r);
    } else if q > 0 {
      RoundBefore(q, cap);
      BurstRounds(minute, second, cap, n - 1, q - 1, cap - 1);
      BurstWraps(minute, second, cap, n, q);
    } else {
      assert n == 0;
      assert Burst(map[], minute, second, cap, 0) == (map[], 0) == (Residue(minute, 0), 0);
    }
  }

  /** A message that does not reach the cap raises the count of the round by one. */
  lemma BurstCounts(minute: string, second: int, cap: int, n: nat, q: nat, r: nat)
    requires 0 <= second < 60 && 0 < r < cap && n > 0
    requires Burst(map[], minute, second, cap, n - 1) == (Residue(minute, r - 1), q)
    ensures Burst(map[], minute, second, cap, n) == (Residue(minute, r), q)
  {
    BurstSnoc(minute, second, cap, n - 1);
    ResidueGrows(minute, second, cap, r - 1);
  }

  /** The `cap`-th message of a round stalls and starts the next round from no counts. */
  lemma BurstWraps(minute: string, second: int, cap: int, n: nat, q: nat)
    requires 0 <= second < 60 && 0 < cap && n > 0 && q > 0
    requires Burst(map[], minute, second, cap, n - 1) == (Residue(minute, cap - 1), q - 1)
    ensures Burst(map[], minute, second, cap, n) == (Residue(minute, 0), q)
  {
    BurstSnoc(minute, second, cap, n - 1);
    ResidueGrows(minute, second, cap, cap - 1);
  }

  /** One more message of a burst. */
  lemma BurstSnoc(minute: string, second: int, cap: int, n: nat)
    requires 0 <= second < 60
    ensures var (b, k) := Burst(map[], minute, second, cap, n);
      var a := Admit(Tick(b, minute), minute, second, cap);
      Burst(map[], minute, second, cap, n + 1) == (a.buckets, k + if a.sleep > 0 then 1 else 0)
  {
  }

  /** A message after `r` in a fresh round either counts as the next one or, as the `cap`-th, stalls. */
  lemma ResidueGrows(minute: string, second: int, cap: int, r: nat)
    requires 0 <= second < 60 && r < cap
    ensures var a := Admit(Tick(Residue(minute, r), minute), minute, second, cap);
      && (r + 1 < cap ==> a == Admission(Residue(minute, r + 1), 0))
      && (r + 1 == cap ==> a.buckets == Residue(minute, 0) && a.sleep > 0)
  {
    assert Count(Residue(minute, r), minute) == r;
    assert Tick(Residue(minute, r), minute) == map[minute := r + 1];
  }

  /** The message before round `q` is the last one of round `q - 1`. */
  lemma RoundBefore(q: nat, cap: int)
    requires q > 0
    ensures (q - 1) * cap + (cap - 1) == q * cap - 1
  {
    calc {
      (q - 1) * cap + (cap - 1);
      q * cap - cap + cap - 1;
      q * cap - 1;
    }
  }

  /** A cap of zero or below (a missing setting reads as 0) stalls every message. */
  lemma {:induction false} NonPositiveCapStallsAll(minute: string, second: int, cap: int, n: nat)
    requires 0 <= second < 60 && cap <= 0
    ensures Burst(map[], minute, second, cap, n) == (map[], n)
  {
    if n > 0 {
      NonPositiveCapStallsAll(minute, second, cap, n - 1);
    }
  }
}
