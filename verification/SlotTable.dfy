/** The worker slot table `m_threadIDs` of ThreadPool.h as a sequence of
    thread ids, where 0 marks a free slot: the manager's fill scan and the
    clearing scan of `threadExit`. */
module SlotTables {

  function Min(a: int, b: int): int
  {
    if a <= b then a else b
  }

  /** The number of free (zero) slots. */
  function CountFree(s: seq<nat>): (n: nat)
    ensures n <= |s|
  {
    if s == [] then 0 else (if s[0] == 0 then 1 else 0) + CountFree(s[1..])
  }

  /** The number of slots holding a thread id. */
  function Occupied(s: seq<nat>): nat
  {
    |s| - CountFree(s)
  }

  /** The manager's scan: walking the table in index order, the first `k`
      free slots receive the ids `ids[0]`, `ids[1]`, ... in turn. */
  function FillFree(s: seq<nat>, ids: seq<nat>, k: nat): (r: seq<nat>)
    requires k <= |ids|
    ensures |r| == |s|
  {
    if s == [] then []
    else if s[0] == 0 && k > 0 then [ids[0]] + FillFree(s[1..], ids[1..], k - 1)
    else [s[0]] + FillFree(s[1..], ids, k)
  }

  /** The index of the first slot holding `id`. */
  function FirstIndex(s: seq<nat>, id: nat): (i: nat)
    requires id in s
    ensures i < |s| && s[i] == id
    ensures forall j :: 0 <= j < i ==> s[j] != id
  {
    if s[0] == id then 0 else 1 + FirstIndex(s[1..], id)
  }

  /** The scan of `threadExit`: the first slot equal to `id` becomes free. */
  function ClearSlot(s: seq<nat>, id: nat): (r: seq<nat>)
    ensures |r| == |s|
  {
    if s == [] then []
    else if s[0] == id then [0] + s[1..]
    else [s[0]] + ClearSlot(s[1..], id)
  }

  // ---------------------------------------------------------------------
  // Counting free slots

  lemma {:induction false} CountFreeAppend(a: seq<nat>, b: seq<nat>)
    ensures CountFree(a + b) == CountFree(a) + CountFree(b)
  {
    if a == [] {
      assert a + b == b;
    } else {
      CountFreeAppend(a[1..], b);
      assert (a + b)[1..] == a[1..] + b;
    }
  }

  lemma {:induction false} CountFreeUpdate(s: seq<nat>, i: nat, v: nat)
    requires i < |s|
    ensures CountFree(s[i := v]) ==
            CountFree(s) - (if s[i] == 0 then 1 else 0) + (if v == 0 then 1 else 0)
  {
    if i == 0 {
      assert s[i := v][1..] == s[1..];
    } else {
      CountFreeUpdate(s[1..], i - 1, v);
      assert s[i := v][1..] == s[1..][i - 1 := v];
    }
  }

  /** A table whose first part holds nonzero ids and whose rest is free. */
  lemma {:induction false} CountFreeIdsThenZeros(ids: seq<nat>, n: nat)
    requires forall j :: 0 <= j < |ids| ==> ids[j] > 0
    ensures CountFree(ids + seq(n, _ => 0)) == n
    ensures Occupied(ids + seq(n, _ => 0)) == |ids|
  {
    CountFreeAppend(ids, seq(n, _ => 0));
    NoFreeAmongIds(ids);
    AllFree(n);
  }

  lemma {:induction false} NoFreeAmongIds(ids: seq<nat>)
    requires forall j :: 0 <= j < |ids| ==> ids[j] > 0
    ensures CountFree(ids) == 0
  {
    if ids != [] {
      NoFreeAmongIds(ids[1..]);
    }
  }

  lemma {:induction false} AllFree(n: nat)
    ensures CountFree(seq(n, _ => 0)) == n
  {
    if n > 0 {
      assert seq(n, _ => 0)[1..] == seq(n - 1, _ => 0);
      AllFree(n - 1);
    }
  }

  /** A free slot has fewer free slots before it than the table has. */
  lemma FreeBeforeFree(s: seq<nat>, i: nat)
    requires i < |s| && s[i] == 0
    ensures CountFree(s[..i]) < CountFree(s)
  {
    assert s == s[..i] + s[i..];
    CountFreeAppend(s[..i], s[i..]);
  }

  // ---------------------------------------------------------------------
  // The fill scan

  lemma {:induction false} FillFreeNone(s: seq<nat>, ids: seq<nat>)
    ensures FillFree(s, ids, 0) == s
  {
    if s != [] {
      FillFreeNone(s[1..], ids);
    }
  }

  /** The scan over a table split in two: the first part uses up as many ids
      as it has free slots (at most `k`), the second part continues with the
      ids that are left. */
  lemma {:induction false} FillFreeAppend(a: seq<nat>, b: seq<nat>, ids: seq<nat>, k: nat)
    requires k <= |ids|
    ensures var m := Min(k, CountFree(a));
            FillFree(a + b, ids, k) == FillFree(a, ids, k) + FillFree(b, ids[m..], k - m)
  {
    var m := Min(k, CountFree(a));
    if a == [] {
      assert a + b == b;
      assert ids[m..] == ids;
    } else {
      var ab := a + b;
      assert ab[0] == a[0];
      assert ab[1..] == a[1..] + b;
      if a[0] == 0 && k > 0 {
        var m' := Min(k - 1, CountFree(a[1..]));
        assert m == m' + 1;
        FillFreeAppend(a[1..], b, ids[1..], k - 1);
        assert ids[1..][m'..] == ids[m..];
        calc {
          FillFree(ab, ids, k);
          [ids[0]] + FillFree(a[1..] + b, ids[1..], k - 1);
          [ids[0]] + (FillFree(a[1..], ids[1..], k - 1) + FillFree(b, ids[m..], k - m));
          ([ids[0]] + FillFree(a[1..], ids[1..], k - 1)) + FillFree(b, ids[m..], k - m);
        }
      } else {
        var m' := Min(k, CountFree(a[1..]));
        assert m == m';
        FillFreeAppend(a[1..], b, ids, k);
        calc {
          FillFree(ab, ids, k);
          [a[0]] + FillFree(a[1..] + b, ids, k);
          [a[0]] + (FillFree(a[1..], ids, k) + FillFree(b, ids[m..], k - m));
          ([a[0]] + FillFree(a[1..], ids, k)) + FillFree(b, ids[m..], k - m);
        }
      }
    }
  }

  /** One more slot scanned while ids are still to be handed out. */
  lemma FillFreeStep(a: seq<nat>, x: nat, ids: seq<nat>, k: nat)
    requires k <= |ids| && CountFree(a) < k
    ensures CountFree(a + [x]) == CountFree(a) + (if x == 0 then 1 else 0)
    ensures FillFree(a + [x], ids, k) == FillFree(a, ids, k) + [if x == 0 then ids[CountFree(a)] else x]
  {
    CountFreeAppend(a, [x]);
    FillFreeAppend(a, [x], ids, k);
    var m := CountFree(a);
    assert [x][1..] == [];
    if x == 0 {
      assert FillFree([x], ids[m..], k - m) == [ids[m..][0]] + FillFree([], ids[m..][1..], k - m - 1);
    } else {
      assert FillFree([x], ids[m..], k - m) == [x] + FillFree([], ids[m..], k - m);
    }
  }

  /** One iteration of the fill loop at slot `i`, with `cur` the table so
      far: the slot still holds its old value, and writing the next id into it
      if it is free extends the scan by one slot. */
  lemma FillLoopStep(s: seq<nat>, i: nat, ids: seq<nat>, k: nat, cnt: nat, cur: seq<nat>)
    requires i < |s| && k <= |ids|
    requires cnt == Min(k, CountFree(s[..i])) && cnt < k
    requires cur == FillFree(s[..i], ids, k) + s[i..]
    ensures cur[i] == s[i]
    ensures s[i] == 0 ==> cnt + 1 == Min(k, CountFree(s[..i + 1])) &&
                          cur[i := ids[cnt]] == FillFree(s[..i + 1], ids, k) + s[i + 1..]
    ensures s[i] != 0 ==> cnt == Min(k, CountFree(s[..i + 1])) &&
                          cur == FillFree(s[..i + 1], ids, k) + s[i + 1..]
  {
    var f := FillFree(s[..i], ids, k);
    assert s[..i + 1] == s[..i] + [s[i]];
    assert s[i..] == [s[i]] + s[i + 1..];
    FillFreeStep(s[..i], s[i], ids, k);
    assert cur == f + [s[i]] + s[i + 1..];
    assert (f + [s[i]] + s[i + 1..])[|f| := ids[cnt]] == f + [ids[cnt]] + s[i + 1..];
  }

  /** Once `k` free slots have been passed, the rest of the table is untouched. */
  lemma FillFreeDone(a: seq<nat>, b: seq<nat>, ids: seq<nat>, k: nat)
    requires k <= |ids| && k <= CountFree(a)
    ensures FillFree(a + b, ids, k) == FillFree(a, ids, k) + b
    ensures k <= CountFree(a + b)
  {
    CountFreeAppend(a, b);
    FillFreeAppend(a, b, ids, k);
    FillFreeNone(b, ids[k..]);
  }

  /** The fill loop stops at slot `i` once the table is scanned or the
      budget `k` is used up; what it has written is then the whole scan. */
  lemma ScanFinished(s: seq<nat>, i: nat, ids: seq<nat>, k: nat, cnt: nat)
    requires i <= |s| && k <= |ids|
    requires cnt == Min(k, CountFree(s[..i]))
    requires i == |s| || cnt >= k
    ensures FillFree(s[..i], ids, k) + s[i..] == FillFree(s, ids, k)
    ensures cnt == Min(k, CountFree(s))
  {
    if i < |s| {
      assert s == s[..i] + s[i..];
      FillFreeDone(s[..i], s[i..], ids, k);
    } else {
      assert s[..i] == s;
      assert s[i..] == [];
    }
  }

  /** Slot by slot: slot `i` receives an id exactly when it is free and
      fewer than `k` free slots come before it, and the id it receives is the
      one numbered by how many free slots come before it. */
  lemma {:induction false} FillFreeAt(s: seq<nat>, ids: seq<nat>, k: nat, i: nat)
    requires k <= |ids| && i < |s|
    ensures FillFree(s, ids, k)[i] ==
            if s[i] == 0 && CountFree(s[..i]) < k then ids[CountFree(s[..i])] else s[i]
  {
    if i > 0 {
      assert s[..i][1..] == s[1..][..i - 1];
      if s[0] == 0 && k > 0 {
        FillFreeAt(s[1..], ids[1..], k - 1, i - 1);
      } else {
        FillFreeAt(s[1..], ids, k, i - 1);
      }
    }
  }

  /** Every slot that held an id still holds the same id. */
  lemma FillFreeKeepsOccupied(s: seq<nat>, ids: seq<nat>, k: nat)
    requires k <= |ids|
    ensures forall i :: 0 <= i < |s| && s[i] != 0 ==> FillFree(s, ids, k)[i] == s[i]
  {
    forall i | 0 <= i < |s| && s[i] != 0
      ensures FillFree(s, ids, k)[i] == s[i]
    {
      FillFreeAt(s, ids, k, i);
    }
  }

  /** With nonzero ids, the scan occupies exactly min(k, free) more slots. */
  lemma {:induction false} FillFreeCount(s: seq<nat>, ids: seq<nat>, k: nat)
    requires k <= |ids|
    requires forall j :: 0 <= j < k ==> ids[j] > 0
    ensures CountFree(FillFree(s, ids, k)) == CountFree(s) - Min(k, CountFree(s))
  {
    if s != [] {
      if s[0] == 0 && k > 0 {
        FillFreeCount(s[1..], ids[1..], k - 1);
      } else {
        FillFreeCount(s[1..], ids, k);
      }
    }
  }

  // ---------------------------------------------------------------------
  // The clearing scan

  /** When no slot holds `id` the table is unchanged. */
  lemma {:induction false} ClearSlotAbsent(s: seq<nat>, id: nat)
    requires id !in s
    ensures ClearSlot(s, id) == s
  {
    if s != [] {
      ClearSlotAbsent(s[1..], id);
    }
  }

  /** When slot `i` is the first to hold `id`, exactly that slot is zeroed. */
  lemma {:induction false} ClearSlotFirst(s: seq<nat>, id: nat, i: nat)
    requires i < |s| && s[i] == id
    requires forall j :: 0 <= j < i ==> s[j] != id
    ensures ClearSlot(s, id) == s[i := 0]
  {
    if i > 0 {
      ClearSlotFirst(s[1..], id, i - 1);
      assert s[i := 0] == [s[0]] + s[1..][i - 1 := 0];
    }
  }

  /** `threadExit`'s whole effect: the lowest slot holding `id` is zeroed
      and nothing else changes; without such a slot nothing changes. */
  lemma ClearSlotSpec(s: seq<nat>, id: nat)
    ensures id in s ==> ClearSlot(s, id) == s[FirstIndex(s, id) := 0]
    ensures id !in s ==> ClearSlot(s, id) == s
  {
    if id in s {
      ClearSlotFirst(s, id, FirstIndex(s, id));
    } else {
      ClearSlotAbsent(s, id);
    }
  }

  /** Clearing the slot of a registered (nonzero) thread frees exactly one slot. */
  lemma ClearSlotFreesOne(s: seq<nat>, id: nat)
    requires id != 0 && id in s
    ensures |ClearSlot(s, id)| == |s|
    ensures Occupied(ClearSlot(s, id)) == Occupied(s) - 1
  {
    var i := FirstIndex(s, id);
    ClearSlotFirst(s, id, i);
    CountFreeUpdate(s, i, 0);
  }
}
