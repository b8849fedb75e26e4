/**
  The connection-slot table as a value: a sequence of client states in slot
  order, the first-fit search over it, and what admission and release make of
  it. The server class keeps the table in an array and proves its methods
  against these functions; the lemmas below are what those functions promise.
 */
module SlotTable {
  import opened Pattern
  import opened Transport

  /** Number of slots: the most connections served at once. */
  const MAX_CLIENTS: nat := 4

  datatype Option<T> = None | Some(value: T)

  /** One slot: the connection it serves (null when free) and its rotation cursor. */
  datatype ClientState = ClientState(client: Connection?, startIndex: int)

  /** The state of a slot nobody holds. */
  const FREE_SLOT: ClientState := ClientState(null, 0)

  /**
    The lowest index whose client is `c`, or None when no slot holds `c`.
    With `c == null` this is the lowest free slot.
   */
  function FindSlot(s: seq<ClientState>, c: Connection?): (r: Option<nat>)
    ensures r.Some? ==> r.value < |s| && s[r.value].client == c
    ensures r.Some? ==> forall j :: 0 <= j < r.value ==> s[j].client != c
    ensures r.None? <==> forall j :: 0 <= j < |s| ==> s[j].client != c
  {
    FindFrom(s, c, 0)
  }

  /** The scan from slot `k` on: the lowest index at or after `k` that holds `c`. */
  function FindFrom(s: seq<ClientState>, c: Connection?, k: nat): (r: Option<nat>)
    requires k <= |s|
    ensures r.Some? ==> k <= r.value < |s| && s[r.value].client == c
    ensures r.Some? ==> forall j :: k <= j < r.value ==> s[j].client != c
    ensures r.None? <==> forall j :: k <= j < |s| ==> s[j].client != c
    decreases |s| - k
  {
    if k == |s| then None
    else if s[k].client == c then Some(k)
    else FindFrom(s, c, k + 1)
  }

  /** The search is determined by its contract: any lowest match is what it returns. */
  lemma FindSlotIsFirst(s: seq<ClientState>, c: Connection?, i: nat)
    requires i < |s| && s[i].client == c
    requires forall j :: 0 <= j < i ==> s[j].client != c
    ensures FindSlot(s, c) == Some(i)
  {
  }

  /** First-fit admission: `c` goes into the lowest free slot with cursor 0; a full table is unchanged. */
  function Admit(s: seq<ClientState>, c: Connection): (r: seq<ClientState>)
    ensures |r| == |s|
    ensures forall j :: 0 <= j < |s| && s[j].client != null ==> r[j] == s[j]
  {
    match FindSlot(s, null)
    case None => s
    case Some(i) => s[i := ClientState(c, 0)]
  }

  /** Release: the first slot holding `c` is freed and its cursor reset; nothing else changes. */
  function Release(s: seq<ClientState>, c: Connection?): (r: seq<ClientState>)
    ensures |r| == |s|
    ensures forall j :: 0 <= j < |s| ==> r[j] == s[j] || (s[j].client == c && r[j] == FREE_SLOT)
  {
    match FindSlot(s, c)
    case None => s
    case Some(i) => s[i := FREE_SLOT]
  }

  /** The number of occupied slots. */
  function Occupied(s: seq<ClientState>): (n: nat)
    ensures n <= |s|
  {
    if |s| == 0 then 0 else (if s[0].client != null then 1 else 0) + Occupied(s[1..])
  }

  /** Counting slot by slot: one more slot adds one exactly when it is occupied. */
  lemma {:induction false} OccupiedSnoc(s: seq<ClientState>, x: ClientState)
    ensures Occupied(s + [x]) == Occupied(s) + (if x.client != null then 1 else 0)
  {
    if |s| > 0 {
      assert (s + [x])[1..] == s[1..] + [x];
      OccupiedSnoc(s[1..], x);
    }
  }

  /** No connection occupies two slots. */
  ghost predicate Distinct(s: seq<ClientState>) {
    forall i, j :: 0 <= i < j < |s| && s[i].client != null ==> s[i].client != s[j].client
  }

  /** `runs[i]` counts the lines generated for the occupant of slot i since its admission. */
  ghost predicate TableInvariant(s: seq<ClientState>, runs: seq<nat>) {
    && |runs| == |s|
    && Distinct(s)
    && (forall i :: 0 <= i < |s| ==> s[i].startIndex == runs[i] % PATTERN_LENGTH_FULL)
    && (forall i :: 0 <= i < |s| && s[i].client == null ==> runs[i] == 0)
  }

  /** Release zeroes the run count of the slot it frees. */
  ghost function ClearRuns(runs: seq<nat>, slot: Option<nat>): (r: seq<nat>)
    ensures |r| == |runs|
  {
    match slot
    case Some(i) => if i < |runs| then runs[i := 0] else runs
    case None => runs
  }

  /** The table is full exactly when every slot is occupied. */
  lemma {:induction false} FullIffAllOccupied(s: seq<ClientState>)
    ensures FindSlot(s, null).None? <==> Occupied(s) == |s|
  {
    if |s| > 0 {
      FullIffAllOccupied(s[1..]);
      if s[0].client != null {
        assert forall j :: 0 < j < |s| ==> s[j] == s[1..][j - 1];
      }
    }
  }

  /** Replacing one slot changes the count by what left and what arrived. */
  lemma {:induction false} OccupiedUpdate(s: seq<ClientState>, i: nat, x: ClientState)
    requires i < |s|
    ensures Occupied(s[i := x]) ==
      Occupied(s) - (if s[i].client != null then 1 else 0) + (if x.client != null then 1 else 0)
  {
    if i == 0 {
      assert s[i := x][1..] == s[1..];
    } else {
      assert s[i := x][1..] == s[1..][i - 1 := x];
      OccupiedUpdate(s[1..], i - 1, x);
    }
  }

  /**
    Admission is first-fit: the new client lands in the lowest free slot with
    cursor 0, every slot before it is occupied and every other slot is
    untouched. When no slot is free the table is returned unchanged.
   */
  lemma AdmitFirstFit(s: seq<ClientState>, c: Connection)
    ensures |Admit(s, c)| == |s|
    ensures FindSlot(s, null).None? ==> Admit(s, c) == s
    ensures FindSlot(s, null).Some? ==>
      var i := FindSlot(s, null).value;
      && Admit(s, c)[i] == ClientState(c, 0)
      && (forall j :: 0 <= j < i ==> s[j].client != null)
      && (forall j :: 0 <= j < |s| && j != i ==> Admit(s, c)[j] == s[j])
  {
  }

  /**
    Capacity: admission is rejected exactly when all slots are occupied, adds
    one occupant otherwise, and the count never exceeds the number of slots.
   */
  lemma AdmitCount(s: seq<ClientState>, c: Connection)
    ensures FindSlot(s, null).None? <==> Occupied(s) == |s|
    ensures Occupied(Admit(s, c)) == if Occupied(s) == |s| then |s| else Occupied(s) + 1
    ensures Occupied(Admit(s, c)) <= |s|
  {
    FullIffAllOccupied(s);
    match FindSlot(s, null)
    case None =>
    case Some(i) => OccupiedUpdate(s, i, ClientState(c, 0));
  }

  /** Release frees the first slot holding `c` and leaves every other slot alone. */
  lemma ReleaseFirstMatch(s: seq<ClientState>, c: Connection?)
    ensures |Release(s, c)| == |s|
    ensures FindSlot(s, c).Some? ==>
      var i := FindSlot(s, c).value;
      && Release(s, c)[i] == FREE_SLOT
      && (forall j :: 0 <= j < |s| && j != i ==> Release(s, c)[j] == s[j])
  {
  }

  /** Releasing a connection that holds no slot is a no-op. */
  lemma ReleaseAbsent(s: seq<ClientState>, c: Connection?)
    requires forall j :: 0 <= j < |s| ==> s[j].client != c
    ensures Release(s, c) == s
  {
  }

  /** On a table without duplicates, a released connection is gone from every slot. */
  lemma ReleaseRemoves(s: seq<ClientState>, c: Connection)
    requires Distinct(s)
    ensures forall j :: 0 <= j < |s| ==> Release(s, c)[j].client != c
  {
    match FindSlot(s, c)
    case None =>
    case Some(i) =>
      forall j | 0 <= j < |s| ensures Release(s, c)[j].client != c {
        if j < i {
          assert s[j].client != c;
        } else if j > i {
          assert s[i].client != s[j].client;
        }
      }
  }

  /** Release is idempotent: a second release of the same handle changes nothing. */
  lemma ReleaseIdempotent(s: seq<ClientState>, c: Connection?)
    requires Distinct(s)
    ensures Release(Release(s, c), c) == Release(s, c)
  {
    if c == null {
      match FindSlot(s, null)
      case None =>
      case Some(i) =>
        var t := Release(s, c);
        FindSlotIsFirst(t, null, i);
        assert t[i := FREE_SLOT] == t;
    } else {
      ReleaseRemoves(s, c);
      ReleaseAbsent(Release(s, c), c);
    }
  }

  /** Releasing an occupant lowers the count by one; anything else leaves it alone. */
  lemma ReleaseCount(s: seq<ClientState>, c: Connection)
    ensures Occupied(Release(s, c)) == Occupied(s) - (if FindSlot(s, c).Some? then 1 else 0)
  {
    match FindSlot(s, c)
    case None =>
    case Some(i) => OccupiedUpdate(s, i, FREE_SLOT);
  }

  /**
    Slot reuse: on a full table, once `a` is released the next admission goes
    into the slot `a` held, with its cursor back at 0 whatever `a` had reached.
   */
  lemma SlotReuse(s: seq<ClientState>, a: Connection, b: Connection)
    requires Occupied(s) == |s|
    requires FindSlot(s, a).Some?
    ensures var i := FindSlot(s, a).value;
      Admit(Release(s, a), b) == s[i := ClientState(b, 0)]
  {
    var i := FindSlot(s, a).value;
    FullIffAllOccupied(s);
    FindSlotIsFirst(Release(s, a), null, i);
    assert Release(s, a)[i := ClientState(b, 0)] == s[i := ClientState(b, 0)];
  }

  /** Admitting a connection not yet in the table keeps the table invariant. */
  lemma AdmitPreserves(s: seq<ClientState>, runs: seq<nat>, c: Connection)
    requires TableInvariant(s, runs)
    requires forall j :: 0 <= j < |s| ==> s[j].client != c
    ensures TableInvariant(Admit(s, c), runs)
  {
  }

  /** Release keeps the table invariant once the freed slot's run count is cleared. */
  lemma ReleasePreserves(s: seq<ClientState>, runs: seq<nat>, c: Connection?)
    requires TableInvariant(s, runs)
    ensures TableInvariant(Release(s, c), ClearRuns(runs, FindSlot(s, c)))
  {
  }
}
