/**
 * RemoteChannelTable of local/proxy/channel.go: a slice of channels (nil slots
 * allowed) and a round-robin cursor. Add appends, StopAll stops every channel and
 * empties the slice, Select walks the cursor with wrap-around to the next non-nil
 * slot. The mutex only serialises these calls and is not modelled.
 *
 * Pick is the total specification of Select: what it returns and where it leaves
 * the cursor. The loop as written agrees with Pick whenever it returns; when every
 * slot is nil and the cursor is 0 or past the end it never returns (SelectSpins).
 */
module ChannelTable {
  import opened Wrappers
  import opened ProxyChannel

  // ---------------------------------------------------------------------------
  // The specification of Select
  // ---------------------------------------------------------------------------

  /** The slot a probe reads when the cursor stands at `cursor`: 0 once it is past the end. */
  function Wrap(n: nat, cursor: nat): nat {
    if cursor >= n then 0 else cursor
  }

  /** The slot d probes after slot w, cyclically. */
  function Cyc(n: nat, w: nat, d: nat): nat
    requires w < n && d < n
  {
    if w + d < n then w + d else w + d - n
  }

  /** The distance, counted from `from`, of the first non-nil slot cyclically at or after slot w. */
  function LiveDistance(cs: seq<RemoteChannel?>, w: nat, from: nat): (r: Option<nat>)
    requires w < |cs| && from <= |cs|
    ensures r.Some? ==> from <= r.value < |cs| && cs[Cyc(|cs|, w, r.value)] != null
    ensures r.Some? ==> forall e :: from <= e < r.value ==> cs[Cyc(|cs|, w, e)] == null
    ensures r.None? ==> forall e :: from <= e < |cs| ==> cs[Cyc(|cs|, w, e)] == null
    decreases |cs| - from
  {
    if from == |cs| then None
    else if cs[Cyc(|cs|, w, from)] != null then Some(from)
    else LiveDistance(cs, w, from + 1)
  }

  /** What Select picks (a slot index, or None for nil) and where it leaves the cursor. */
  datatype Choice = Choice(slot: Option<nat>, cursor: nat)

  /**
   * The choice Select makes: the first non-nil slot at or after the wrapped cursor,
   * cyclically, with the cursor left one past it. When every slot is nil the result
   * is nil and the cursor ends where the loop stops: back at its start when that lies
   * in 1..|cs|, else (where the loop as written never stops) after one full round.
   */
  function Pick(cs: seq<RemoteChannel?>, cursor: nat): (c: Choice)
    ensures |cs| > 0 ==> 1 <= c.cursor <= |cs|
    ensures c.slot.Some? ==> c.slot.value < |cs| && cs[c.slot.value] != null
  {
    if |cs| == 0 then Choice(None, cursor)
    else
      var w := Wrap(|cs|, cursor);
      match LiveDistance(cs, w, 0)
      case Some(d) => Choice(Some(Cyc(|cs|, w, d)), Cyc(|cs|, w, d) + 1)
      case None => Choice(None, if 1 <= cursor <= |cs| then cursor else |cs|)
  }

  /** The channel a choice designates, nil for no slot. */
  function Chosen(cs: seq<RemoteChannel?>, c: Choice): RemoteChannel? {
    if c.slot.Some? && c.slot.value < |cs| then cs[c.slot.value] else null
  }

  /** Slot k lies cyclically in [from, to): at or after `from` and before `to`. */
  predicate CyclicallyBetween(from: nat, to: nat, k: nat) {
    if from <= to then from <= k < to else from <= k || k < to
  }

  /**
   * A picked slot is non-nil, in range, the cursor is left one past it, and every
   * slot cyclically between the wrapped cursor and it is nil: Select never returns a
   * channel outside the table and never skips a non-nil slot.
   */
  lemma PickLive(cs: seq<RemoteChannel?>, cursor: nat)
    requires Pick(cs, cursor).slot.Some?
    ensures var j := Pick(cs, cursor).slot.value;
            && j < |cs| && cs[j] != null && Pick(cs, cursor).cursor == j + 1
            && forall k :: 0 <= k < |cs| && CyclicallyBetween(Wrap(|cs|, cursor), j, k) ==> cs[k] == null
  {
    var n := |cs|;
    var w := Wrap(n, cursor);
    var d := LiveDistance(cs, w, 0).value;
    var j := Cyc(n, w, d);
    forall k | 0 <= k < n && CyclicallyBetween(w, j, k) ensures cs[k] == null {
      var e := if k >= w then k - w else k + n - w;
      assert Cyc(n, w, e) == k;
    }
  }

  /** Select yields nil exactly when every slot is nil (for every cursor). */
  lemma PickNilIffAllNil(cs: seq<RemoteChannel?>, cursor: nat)
    ensures Pick(cs, cursor).slot.None? <==> forall k :: 0 <= k < |cs| ==> cs[k] == null
  {
    var n := |cs|;
    if n > 0 {
      var w := Wrap(n, cursor);
      if LiveDistance(cs, w, 0).None? {
        forall k | 0 <= k < n ensures cs[k] == null {
          var e := if k >= w then k - w else k + n - w;
          assert Cyc(n, w, e) == k;
        }
      }
    }
  }

  /** The slots m successive Select calls return, starting from `cursor`. */
  function Picks(cs: seq<RemoteChannel?>, cursor: nat, m: nat): (r: seq<Option<nat>>)
    ensures |r| == m
    decreases m
  {
    if m == 0 then [] else [Pick(cs, cursor).slot] + Picks(cs, Pick(cs, cursor).cursor, m - 1)
  }

  /** One probe further from slot w is one probe less from the slot after w. */
  lemma CycStep(n: nat, w: nat, i: nat)
    requires w < n && 0 < i < n
    ensures Cyc(n, Wrap(n, w + 1), i - 1) == Cyc(n, w, i)
  {
  }

  /**
   * Round robin: on a table without nil slots, m <= |cs| successive Select calls
   * return the slots in cyclic order from the wrapped cursor, so |cs| consecutive
   * calls return each of the channels exactly once.
   */
  lemma {:induction false} RoundRobin(cs: seq<RemoteChannel?>, cursor: nat, m: nat)
    requires |cs| > 0 && forall k :: 0 <= k < |cs| ==> cs[k] != null
    requires m <= |cs|
    ensures forall i :: 0 <= i < m ==> Picks(cs, cursor, m)[i] == Some(Cyc(|cs|, Wrap(|cs|, cursor), i))
    decreases m
  {
    var n := |cs|;
    var w := Wrap(n, cursor);
    if m > 0 {
      assert LiveDistance(cs, w, 0) == Some(0);
      assert Pick(cs, cursor) == Choice(Some(w), w + 1);
      RoundRobin(cs, w + 1, m - 1);
      var all := Picks(cs, cursor, m);
      var tail := Picks(cs, w + 1, m - 1);
      assert all == [Some(w)] + tail;
      forall i | 0 <= i < m ensures all[i] == Some(Cyc(n, w, i)) {
        if i > 0 {
          assert all[i] == tail[i - 1];
          CycStep(n, w, i);
        }
      }
    }
  }

  /** The non-nil slots at or after slot c, in index order (see LiveFromFacts). */
  function LiveFrom(cs: seq<RemoteChannel?>, c: nat): seq<nat>
    decreases |cs| - c
  {
    if c >= |cs| then [] else (if cs[c] != null then [c] else []) + LiveFrom(cs, c + 1)
  }

  /** LiveFrom lists exactly the non-nil slots at or after c, increasing, the first
      of them preceded only by nil slots. */
  lemma {:induction false} LiveFromFacts(cs: seq<RemoteChannel?>, c: nat)
    ensures var live := LiveFrom(cs, c);
            && (forall i :: 0 <= i < |live| ==> c <= live[i] < |cs| && cs[live[i]] != null)
            && (forall i, j :: 0 <= i < j < |live| ==> live[i] < live[j])
            && (forall x :: c <= x < |cs| && cs[x] != null ==> x in live)
            && (|live| > 0 ==> forall x :: c <= x < live[0] ==> cs[x] == null)
  {
    LiveFromOrdered(cs, c);
    LiveFromComplete(cs, c);
  }

  /** Every entry of LiveFrom is a non-nil slot at or after c, and the entries increase. */
  lemma LiveFromOrdered(cs: seq<RemoteChannel?>, c: nat)
    ensures forall i :: 0 <= i < |LiveFrom(cs, c)| ==> c <= LiveFrom(cs, c)[i] < |cs| && cs[LiveFrom(cs, c)[i]] != null
    ensures forall i, j :: 0 <= i < j < |LiveFrom(cs, c)| ==> LiveFrom(cs, c)[i] < LiveFrom(cs, c)[j]
  {
    LiveFromBounds(cs, c);
    LiveFromIncreasing(cs, c);
  }

  /** Every entry of LiveFrom is a non-nil slot at or after c. */
  lemma {:induction false} LiveFromBounds(cs: seq<RemoteChannel?>, c: nat)
    ensures forall i :: 0 <= i < |LiveFrom(cs, c)| ==> c <= LiveFrom(cs, c)[i] < |cs| && cs[LiveFrom(cs, c)[i]] != null
    decreases |cs| - c
  {
    if c < |cs| {
      LiveFromBounds(cs, c + 1);
      if cs[c] != null {
        assert LiveFrom(cs, c) == [c] + LiveFrom(cs, c + 1);
      } else {
        assert LiveFrom(cs, c) == LiveFrom(cs, c + 1);
      }
    }
  }

  /** The entries of LiveFrom increase. */
  lemma {:induction false} LiveFromIncreasing(cs: seq<RemoteChannel?>, c: nat)
    ensures forall i, j :: 0 <= i < j < |LiveFrom(cs, c)| ==> LiveFrom(cs, c)[i] < LiveFrom(cs, c)[j]
    decreases |cs| - c
  {
    if c < |cs| {
      LiveFromIncreasing(cs, c + 1);
      var rest := LiveFrom(cs, c + 1);
      var live := LiveFrom(cs, c);
      if cs[c] != null {
        LiveFromBounds(cs, c + 1);
        assert live == [c] + rest;
        forall i, j | 0 <= i < j < |live| ensures live[i] < live[j] {
          assert live[j] == rest[j - 1];
          if i > 0 {
            assert live[i] == rest[i - 1];
          }
        }
      } else {
        assert live == rest;
      }
    }
  }

  /** Every non-nil slot at or after c is in LiveFrom, and the slots before its first
      entry are nil. */
  lemma {:induction false} LiveFromComplete(cs: seq<RemoteChannel?>, c: nat)
    ensures var live := LiveFrom(cs, c);
            && (forall x :: c <= x < |cs| && cs[x] != null ==> x in live)
            && (|live| > 0 ==> forall x :: c <= x < live[0] && x < |cs| ==> cs[x] == null)
    decreases |cs| - c
  {
    if c < |cs| {
      LiveFromComplete(cs, c + 1);
      var rest := LiveFrom(cs, c + 1);
      assert LiveFrom(cs, c) == (if cs[c] != null then [c] else []) + rest;
    }
  }

  /** Nil slots contribute nothing to LiveFrom. */
  lemma {:induction false} LiveFromSkipsNil(cs: seq<RemoteChannel?>, c: nat, j: nat)
    requires c <= j <= |cs| && forall x :: c <= x < j ==> cs[x] == null
    ensures LiveFrom(cs, c) == LiveFrom(cs, j)
    decreases j - c
  {
    if c < j {
      LiveFromSkipsNil(cs, c + 1, j);
    }
  }

  /** Below the end of the table, Select picks the first non-nil slot at or after the cursor. */
  lemma PickFirstLive(cs: seq<RemoteChannel?>, c: nat)
    requires c < |cs| && |LiveFrom(cs, c)| > 0
    ensures c <= LiveFrom(cs, c)[0] < |cs|
    ensures Pick(cs, c) == Choice(Some(LiveFrom(cs, c)[0]), LiveFrom(cs, c)[0] + 1)
    ensures LiveFrom(cs, c) == [LiveFrom(cs, c)[0]] + LiveFrom(cs, LiveFrom(cs, c)[0] + 1)
  {
    var n := |cs|;
    var live := LiveFrom(cs, c);
    LiveFromFacts(cs, c);
    var j := live[0];
    assert cs[Cyc(n, c, j - c)] != null;
    var d := LiveDistance(cs, c, 0).value;
    assert d == j - c;
    LiveFromSkipsNil(cs, c, j);
  }

  /**
   * Successive Select calls from a cursor c <= |cs| return the non-nil slots at or
   * after c in index order, one per call.
   */
  lemma {:induction false} PicksVisitLiveInOrder(cs: seq<RemoteChannel?>, c: nat)
    requires c <= |cs|
    ensures var live := LiveFrom(cs, c);
            forall i :: 0 <= i < |live| ==> Picks(cs, c, |live|)[i] == Some(live[i])
    decreases |cs| - c
  {
    var live := LiveFrom(cs, c);
    if |live| > 0 {
      var j := live[0];
      PickFirstLive(cs, c);
      var rest := LiveFrom(cs, j + 1);
      assert live == [j] + rest;
      PicksVisitLiveInOrder(cs, j + 1);
      var tail := Picks(cs, j + 1, |rest|);
      var all := Picks(cs, c, |live|);
      assert all == [Some(j)] + tail;
      forall i | 0 <= i < |live| ensures all[i] == Some(live[i]) {
        if i > 0 {
          assert all[i] == tail[i - 1] && live[i] == rest[i - 1];
        }
      }
    }
  }

  /**
   * From a fresh table (cursor 0) with k non-nil slots, k successive Select calls
   * return those slots in index order; so a table built by Add without nil entries
   * hands out cs[0], cs[1], ..., cs[k-1].
   */
  lemma FreshTableInOrder(cs: seq<RemoteChannel?>)
    ensures var live := LiveFrom(cs, 0);
            && (forall x :: 0 <= x < |cs| && cs[x] != null ==> x in live)
            && (forall i :: 0 <= i < |live| ==> live[i] < |cs| && cs[live[i]] != null)
            && (forall i :: 0 <= i < |live| ==> Picks(cs, 0, |live|)[i] == Some(live[i]))
  {
    LiveFromFacts(cs, 0);
    PicksVisitLiveInOrder(cs, 0);
  }

  /** In particular, with no nil slot the first |cs| calls return slots 0, 1, ... in order. */
  lemma {:induction false} FullFreshTableInOrder(cs: seq<RemoteChannel?>)
    requires forall k :: 0 <= k < |cs| ==> cs[k] != null
    ensures forall i :: 0 <= i < |cs| ==> Picks(cs, 0, |cs|)[i] == Some(i)
  {
    if |cs| > 0 {
      RoundRobin(cs, 0, |cs|);
    }
  }

  // ---------------------------------------------------------------------------
  // The loop as written
  // ---------------------------------------------------------------------------

  /** One probe of the Select loop: wrap the cursor, read the slot, step past it. */
  function ProbeStep(n: nat, cursor: nat): (r: nat)
    ensures n > 0 ==> 1 <= r <= n
  {
    Wrap(n, cursor) + 1
  }

  /** The cursor after k probes of the Select loop started at `start`. */
  function CursorAfter(n: nat, start: nat, k: nat): (r: nat)
    ensures n > 0 && k > 0 ==> 1 <= r <= n
  {
    if k == 0 then start else ProbeStep(n, CursorAfter(n, start, k - 1))
  }

  /**
   * The loop leaves only on a non-nil slot or when the cursor, just stepped, equals
   * where it started. With every slot nil and a start cursor of 0 or past the end,
   * neither ever happens: probe k reads the nil slot just before CursorAfter(k), and
   * the cursor never returns to its start. Select spins forever holding the table's
   * mutex.
   */
  lemma SelectSpins(cs: seq<RemoteChannel?>, start: nat)
    requires |cs| > 0 && forall k :: 0 <= k < |cs| ==> cs[k] == null
    requires start == 0 || start > |cs|
    ensures forall k :: k > 0 ==> CursorAfter(|cs|, start, k) != start && cs[CursorAfter(|cs|, start, k) - 1] == null
  {
  }

  /** CursorAfter is the cursor of the Select method's loop: after probe k it is one
      past slot k - 1 counted cyclically from the wrapped start. */
  lemma {:induction false} CursorAfterIsCyc(n: nat, start: nat, k: nat)
    requires 0 < k <= n
    ensures CursorAfter(n, start, k) == Cyc(n, Wrap(n, start), k - 1) + 1
  {
    if k > 1 {
      CursorAfterIsCyc(n, start, k - 1);
    }
  }

  /** When the loop as written returns: on an empty table, when some slot is
      non-nil, or when the cursor starts within 1..|cs|. */
  predicate SelectReturns(cs: seq<RemoteChannel?>, cursor: nat) {
    |cs| == 0 || 1 <= cursor <= |cs| || exists k :: 0 <= k < |cs| && cs[k] != null
  }

  // ---------------------------------------------------------------------------
  // The table object
  // ---------------------------------------------------------------------------

  /** Index of the first nil slot, or |cs| when there is none. */
  function FirstNil(cs: seq<RemoteChannel?>): (p: nat)
    ensures p <= |cs|
    ensures forall i :: 0 <= i < p ==> cs[i] != null
    ensures p < |cs| ==> cs[p] == null
  {
    if |cs| == 0 || cs[0] == null then 0 else 1 + FirstNil(cs[1..])
  }

  /** The channels a table refers to. */
  function Channels(cs: seq<RemoteChannel?>): set<RemoteChannel> {
    set i | 0 <= i < |cs| && cs[i] != null :: cs[i]
  }

  class RemoteChannelTable {
    var cs: seq<RemoteChannel?>
    var cursor: nat

    /** NewRemoteChannelTable: an empty table with the cursor at 0. */
    constructor ()
      ensures cs == [] && cursor == 0
    {
      cs := [];
      cursor := 0;
    }

    /** Add: c becomes the last slot; earlier slots and the cursor are unchanged. */
    method Add(c: RemoteChannel?)
      modifies this`cs
      ensures cs == old(cs) + [c]
    {
      cs := cs + [c];
    }

    /**
     * StopAll: Stop every channel in slot order, then empty the table; the cursor is
     * not reset. A nil slot makes Stop dereference nil: the call panics there, after
     * stopping the channels before it, and the table is left as it was.
     */
    method StopAll() returns (panicked: bool)
      modifies this`cs, Channels(cs)`running, Channels(cs)`closed, Channels(cs)`stopCalls
      ensures var p := FirstNil(old(cs));
              && panicked == (p < |old(cs)|)
              && cs == (if panicked then old(cs) else [])
              && (forall ch :: ch in old(cs)[..p] && ch != null ==>
                    !ch.running && ch.closed && ch.stopCalls == old(ch.stopCalls) + multiset(old(cs)[..p])[ch])
              && (forall ch :: ch in old(cs) && ch !in old(cs)[..p] && ch != null ==>
                    ch.running == old(ch.running) && ch.closed == old(ch.closed) && ch.stopCalls == old(ch.stopCalls))
    {
      var i := 0;
      while i < |cs|
        invariant 0 <= i <= |cs| && cs == old(cs)
        invariant forall j :: 0 <= j < i ==> cs[j] != null
        invariant forall ch :: ch in cs[..i] && ch != null ==>
                    !ch.running && ch.closed && ch.stopCalls == old(ch.stopCalls) + multiset(cs[..i])[ch]
        invariant forall ch :: ch in cs && ch !in cs[..i] && ch != null ==>
                    ch.running == old(ch.running) && ch.closed == old(ch.closed) && ch.stopCalls == old(ch.stopCalls)
      {
        var c := cs[i];
        if c == null {
          assert FirstNil(cs) == i;
          return true;
        }
        assert cs[..i + 1] == cs[..i] + [c];
        c.Stop();
        i := i + 1;
      }
      assert FirstNil(cs) == |cs| && cs[..|cs|] == cs;
      cs := [];
      return false;
    }

    /**
     * Select, as written: probe slots from the cursor with wrap-around, stepping the
     * cursor past each one, until a non-nil slot or until the cursor is back where it
     * started. Requires that the loop returns (see SelectSpins for when it does not).
     */
    method Select() returns (c: RemoteChannel?)
      requires SelectReturns(cs, cursor)
      modifies this`cursor
      ensures c == Chosen(cs, Pick(cs, old(cursor)))
      ensures cursor == Pick(cs, old(cursor)).cursor
    {
      if |cs| == 0 {
        return null;
      }
      var startCursor := cursor;
      ghost var n := |cs|;
      ghost var w := Wrap(n, startCursor);
      ghost var k: nat := 0;
      while true
        invariant 0 <= k < n
        invariant k == 0 ==> cursor == startCursor
        invariant k > 0 ==> cursor == Cyc(n, w, k - 1) + 1
        invariant LiveDistance(cs, w, 0) == LiveDistance(cs, w, k)
        decreases n - k
      {
        if cursor >= |cs| {
          cursor := 0;
        }
        assert cursor == Cyc(n, w, k);
        c := cs[cursor];
        cursor := cursor + 1;
        if c != null {
          return c;
        }
        if cursor == startCursor {
          break;
        }
        if k + 1 == n {
          PickNilIffAllNil(cs, startCursor);
          assert false;
        }
        k := k + 1;
      }
      c := null;
    }
  }
}
