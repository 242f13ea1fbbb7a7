/** The line and the history as they are stored: 128 bytes a line, and 20 lines in a ring. */
module HistoryRing {
  import opened LineEditing

  const LINE_BYTES: nat := 128

  /** A line that begins the buffer, with zeros behind it. */
  predicate Holds(bytes: seq<char>, text: string) {
    && |bytes| == LINE_BYTES && |text| < LINE_BYTES
    && forall i :: 0 <= i < LINE_BYTES ==> bytes[i] == if i < |text| then text[i] else '\0'
  }

  datatype Ring = Ring(slots: seq<seq<char>>, idx: int, base: int, size: int)

  function SlotOf(j: nat): (slot: nat)
    ensures slot < NUM_HISTORY
  {
    j % NUM_HISTORY
  }

  function AtMost(n: nat, limit: nat): nat {
    if n < limit then n else limit
  }

  /** The slot of a line is its number around the ring; the newest 19 lines are there, and the base slot
      is for the unsent line. */
  ghost predicate Remembers(r: Ring, s: Session) {
    && |r.slots| == NUM_HISTORY && s.browse <= Depth(s)
    && r.base == SlotOf(|s.lines|) && r.idx == SlotOf(|s.lines| - s.browse) && r.size == AtMost(|s.lines|, NUM_HISTORY)
    && (forall j :: 0 <= j < |s.lines| && |s.lines| < j + NUM_HISTORY ==> Holds(r.slots[SlotOf(j)], s.lines[j]))
    && (s.browse > 0 ==> Holds(r.slots[r.base], s.scratch))
  }

  function Before(slot: int): int {
    if slot - 1 < 0 then NUM_HISTORY - 1 else slot - 1
  }

  lemma SlotSteps(j: nat)
    ensures SlotOf(j + 1) == (SlotOf(j) + 1) % NUM_HISTORY && Before(SlotOf(j + 1)) == SlotOf(j)
  {
  }

  /** Lines fewer than 20 apart have different slots. */
  lemma SlotsApart(j: nat, n: nat)
    requires j < n < j + NUM_HISTORY
    ensures SlotOf(j) != SlotOf(n)
  {
  }

  lemma SlotLow(j: nat)
    requires j < NUM_HISTORY
    ensures SlotOf(j) == j
  {
  }

  lemma AtBase(r: Ring, s: Session)
    requires Remembers(r, s)
    ensures r.idx == r.base <==> s.browse == 0
  {
    if s.browse > 0 {
      SlotsApart(|s.lines| - s.browse, |s.lines|);
    }
  }

  /** The two tests that keep the user from going further back than there are lines. */
  lemma AtOldest(r: Ring, s: Session)
    requires Remembers(r, s)
    ensures (r.size < NUM_HISTORY && r.idx == 0) || Before(r.idx) == r.base <==> s.browse == Depth(s)
    ensures s.browse < Depth(s) ==> Before(r.idx) == SlotOf(|s.lines| - s.browse - 1)
  {
    var n := |s.lines|;
    if n < NUM_HISTORY {
      SlotLow(n);
      SlotLow(n - s.browse);
    } else {
      SlotSteps(n - s.browse - 1);
      if s.browse < NUM_HISTORY - 1 {
        SlotsApart(n - s.browse - 1, n);
      } else {
        assert SlotOf(n - NUM_HISTORY) == SlotOf(n);
      }
    }
  }

  /** The line `k` steps back is in its slot. */
  lemma HoldsRecalled(r: Ring, s: Session, k: nat)
    requires Remembers(r, s) && k <= Depth(s) && s.browse > 0
    ensures Holds(r.slots[SlotOf(|s.lines| - k)], Recalled(s, k))
  {
  }

  // ---------- What the keys do to the ring ----------

  /** Going back from the unsent line saves it in the base slot. */
  lemma SavesScratch(r: Ring, s: Session, bytes: seq<char>)
    requires Remembers(r, s) && Holds(bytes, s.text) && s.browse < Depth(s)
    ensures r.base == r.idx <==> s.browse == 0
    ensures var saved := if r.idx == r.base then r.(slots := r.slots[r.base := bytes]) else r;
            && Remembers(saved.(idx := Before(r.idx)), Upped(s))
            && Holds(saved.slots[Before(r.idx)], Upped(s).text)
  {
    hide Holds, SlotOf, Before;
    AtBase(r, s);
    AtOldest(r, s);
    var n, saved := |s.lines|, if r.idx == r.base then r.(slots := r.slots[r.base := bytes]) else r;
    forall j | 0 <= j < n && n < j + NUM_HISTORY ensures Holds(saved.slots[SlotOf(j)], s.lines[j]) {
      SlotsApart(j, n);
    }
    HoldsRecalled(saved.(idx := Before(r.idx)), Upped(s), s.browse + 1);
  }

  lemma StepsDown(r: Ring, s: Session)
    requires Remembers(r, s) && s.browse > 0
    ensures var now := r.(idx := (r.idx + 1) % NUM_HISTORY);
            Remembers(now, Downed(s)) && 0 <= now.idx < NUM_HISTORY && Holds(r.slots[now.idx], Downed(s).text)
  {
    hide Holds;
    SlotSteps(|s.lines| - s.browse);
    HoldsRecalled(r, s, s.browse - 1);
  }

  /** A submitted line is the newest one, in the slot that was the base. */
  lemma StoresLine(r: Ring, s: Session, bytes: seq<char>)
    requires Remembers(r, s) && Holds(bytes, s.text) && s.text != ""
    ensures var base := (r.base + 1) % NUM_HISTORY;
            var size := if r.size < NUM_HISTORY then r.size + 1 else r.size;
            Remembers(Ring(r.slots[r.base := bytes], base, base, size), Entered(s))
  {
    hide Holds;
    var n, t := |s.lines|, Entered(s);
    SlotSteps(n);
    var slots := r.slots[r.base := bytes];
    forall j | 0 <= j < n + 1 && n + 1 < j + NUM_HISTORY ensures Holds(slots[SlotOf(j)], t.lines[j]) {
      if j < n {
        SlotsApart(j, n);
      }
    }
  }

  // ---------- What the keys do to the buffer ----------

  /** Editing keeps its hands off the ring. */
  lemma SameRing(r: Ring, s: Session, t: Session)
    requires Remembers(r, s) && t.lines == s.lines && t.scratch == s.scratch && t.browse == s.browse
    ensures Remembers(r, t)
  {
  }
}
