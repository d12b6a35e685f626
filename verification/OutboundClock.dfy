/** The timestamps the Vault client signs with (src/vault_client.rs): at most one request may carry a
    given second, so a busy second runs ahead of the wall clock, up to a limit. */
module OutboundClock {

  const MAX_LEAD: int := 5

  /** The atomic update: the next timestamp after `last` when the wall clock reads `now`. */
  function Next(last: int, now: int): (ts: int)
    ensures now <= ts <= now + 5 && ts != last
    ensures ts > last <==> last - now < 5
  {
    if now > last || last - now >= MAX_LEAD then now else last + 1
  }

  class Client {
    var lastTimestamp: int

    constructor ()
      ensures lastTimestamp == 0
    {
      lastTimestamp := 0;
    }

    /** `fetch_update` retries its closure until no other task got between, so it is one step. */
    method TakeTimestamp(now: int) returns (ts: int)
      modifies this
      ensures ts == Next(old(lastTimestamp), now) && lastTimestamp == ts
    {
      var last := lastTimestamp;
      if now > last || last - now >= MAX_LEAD {
        ts := now;
      } else {
        ts := last + 1;
      }
      lastTimestamp := ts;
    }
  }

  /** The timestamp issued at call `j`, the wall clock having read `ns[0..j]`, in any order. */
  function Issued(last: int, ns: seq<int>, j: nat): int
    requires j < |ns|
    decreases j
  {
    Next(if j == 0 then last else Issued(last, ns, j - 1), ns[j])
  }

  /** Calls `i` to `m` are not too many for the seconds between their readings. */
  ghost predicate Fits(ns: seq<int>, i: nat, m: nat)
    requires i <= m < |ns|
  {
    m - i < 6 + ns[m] - ns[i]
  }

  ghost predicate Calm(ns: seq<int>, m: nat)
    requires m < |ns|
  {
    forall i :: 0 <= i <= m ==> Fits(ns, i, m)
  }

  ghost predicate Increasing(last: int, ns: seq<int>) {
    forall i, j :: 0 <= i < j < |ns| ==> Issued(last, ns, i) < Issued(last, ns, j)
  }

  /** While calls are calm, a timestamp is the furthest any earlier reading could have pushed it. */
  ghost predicate Pushed(last: int, ns: seq<int>, j: nat)
    requires j < |ns|
  {
    && (forall i :: 0 <= i <= j ==> Issued(last, ns, j) >= ns[i] + (j - i))
    && (exists i :: 0 <= i <= j && Issued(last, ns, j) == ns[i] + (j - i))
  }

  lemma NextPushed(last: int, ns: seq<int>, j: nat)
    requires j + 1 < |ns| && Pushed(last, ns, j)
    ensures Calm(ns, j + 1) <==> Issued(last, ns, j + 1) > Issued(last, ns, j)
    ensures Calm(ns, j + 1) ==> Pushed(last, ns, j + 1)
  {
    var v, w, now := Issued(last, ns, j), Issued(last, ns, j + 1), ns[j + 1];
    assert w == Next(v, now);
    var k :| 0 <= k <= j && v == ns[k] + (j - k);
    if v - now < MAX_LEAD {
      forall i | 0 <= i <= j + 1 ensures Fits(ns, i, j + 1) && w >= ns[i] + (j + 1 - i) {
        if i <= j { assert v >= ns[i] + (j - i); }
      }
      assert w == ns[k] + (j + 1 - k) || w == ns[j + 1] + (j + 1 - (j + 1));
    } else {
      assert !Fits(ns, k, j + 1);
    }
  }

  lemma {:induction false} CalmPushed(last: int, ns: seq<int>, j: nat)
    requires j < |ns| && last < ns[0]
    requires forall m :: 0 <= m <= j ==> Calm(ns, m)
    ensures Pushed(last, ns, j)
    decreases j
  {
    if j == 0 {
      assert Issued(last, ns, 0) == ns[0] + (0 - 0);
    } else {
      CalmPushed(last, ns, j - 1);
      NextPushed(last, ns, j - 1);
    }
  }

  lemma {:induction false} StepwiseIncreasing(last: int, ns: seq<int>, i: nat, j: nat)
    requires i < j < |ns|
    requires forall k :: 0 <= k < |ns| - 1 ==> Issued(last, ns, k) < Issued(last, ns, k + 1)
    ensures Issued(last, ns, i) < Issued(last, ns, j)
    decreases j
  {
    assert Issued(last, ns, j - 1) < Issued(last, ns, j - 1 + 1);
    if i < j - 1 { StepwiseIncreasing(last, ns, i, j - 1); }
  }

  /** From a first reading past the stored timestamp, the timestamps issued are strictly increasing, so
      no two requests share one, exactly when every stretch of calls whose readings span `d` seconds has
      at most `6 + d` calls. */
  lemma IncreasingIffCalm(last: int, ns: seq<int>)
    requires ns != [] ==> last < ns[0]
    ensures Increasing(last, ns) <==> forall m :: 0 <= m < |ns| ==> Calm(ns, m)
  {
    if forall m :: 0 <= m < |ns| ==> Calm(ns, m) {
      forall k | 0 <= k < |ns| - 1 ensures Issued(last, ns, k) < Issued(last, ns, k + 1) {
        CalmPushed(last, ns, k);
        assert Calm(ns, k + 1);
        NextPushed(last, ns, k);
      }
      forall i, j | 0 <= i < j < |ns| ensures Issued(last, ns, i) < Issued(last, ns, j) {
        StepwiseIncreasing(last, ns, i, j);
      }
    } else {
      var m := FirstRush(ns);
      CalmPushed(last, ns, m - 1);
      NextPushed(last, ns, m - 1);
      assert Issued(last, ns, m - 1) >= Issued(last, ns, m);
    }
  }

  lemma FirstRush(ns: seq<int>) returns (m: nat)
    requires !forall m :: 0 <= m < |ns| ==> Calm(ns, m)
    ensures 0 < m < |ns| && !Calm(ns, m) && forall k :: 0 <= k < m ==> Calm(ns, k)
  {
    assert |ns| > 0;
    assert Calm(ns, 0) by { assert Fits(ns, 0, 0); }
    m := 1;
    while m < |ns| && Calm(ns, m)
      invariant 1 <= m <= |ns| && forall k :: 0 <= k < m ==> Calm(ns, k)
    {
      m := m + 1;
    }
  }

  /** Six calls always fit: the probe and five pages at once, with readings that do not go back. */
  lemma SixIncrease(last: int, ns: seq<int>)
    requires |ns| <= 6 && (ns != [] ==> last < ns[0]) && forall i, j :: 0 <= i < j < |ns| ==> ns[i] <= ns[j]
    ensures Increasing(last, ns)
  {
    forall m | 0 <= m < |ns| ensures Calm(ns, m) { }
    hide Calm, Increasing;
    IncreasingIffCalm(last, ns);
  }

  /** The limit is tight: of seven calls in one second the last repeats the first's timestamp. */
  lemma {:induction false} SeventhRepeats(last: int, now: int)
    requires last < now
    ensures var ns := [now, now, now, now, now, now, now];
            Issued(last, ns, 5) == now + 5 && Issued(last, ns, 6) == Issued(last, ns, 0) == now
  {
    var ns := [now, now, now, now, now, now, now];
    assert Issued(last, ns, 0) == now;
    assert Issued(last, ns, 1) == now + 1;
    assert Issued(last, ns, 2) == now + 2;
    assert Issued(last, ns, 3) == now + 3;
    assert Issued(last, ns, 4) == now + 4;
  }
}
