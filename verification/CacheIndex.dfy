/** The metadata index of the disk cache: rows keyed by content hash, their state machine and
their least-recently-used order. */
module CacheIndex {
  import opened Wrappers
  import opened Ordering

  datatype RowState = Absent | Transferring | Verifying | Valid | Corrupted | Evicting

  datatype Row = Row(size: nat, accessed: real, hits: nat, state: RowState)

  // Hashes are 64 hexadecimal digits; as a number they sort the same way.
  type Rows = map<nat, Row>

  predicate Allowed(from: RowState, to: RowState) {
    from == to ||
    match from
    case Absent => to in {Transferring, Verifying}
    case Transferring => to in {Verifying, Absent}
    case Verifying => to in {Valid, Corrupted, Absent}
    case Valid => to in {Evicting, Corrupted, Absent, Verifying}
    case Corrupted => to in {Absent, Verifying}
    case Evicting => to in {Absent, Valid}
  }

  // The table read by target: where a row can come from. A row may always stay in its state.
  lemma TransitionsByTarget(from: RowState)
    ensures Allowed(from, Absent)
    ensures Allowed(from, Transferring) <==> from in {Absent, Transferring}
    ensures Allowed(from, Verifying) <==> from != Evicting
    ensures Allowed(from, Valid) <==> from in {Verifying, Valid, Evicting}
    ensures Allowed(from, Corrupted) <==> from in {Verifying, Valid, Corrupted}
    ensures Allowed(from, Evicting) <==> from in {Valid, Evicting}
  {
  }

  // Only the access columns of one row have changed.
  predicate Touched(before: Rows, after: Rows, h: nat) {
    h in before && h in after
    && after == before[h := before[h].(accessed := after[h].accessed, hits := before[h].hits + 1)]
  }

  predicate Evictable(s: RowState)
    ensures Evictable(s) == Allowed(s, Evicting)
  {
    s.Valid? || s.Evicting?
  }

  // Least-recently-used order ----------------------------------------------------------------

  predicate Older(m: Rows, a: nat, b: nat)
    requires a in m && b in m
  {
    Precedes(Rank(m[a].accessed, a), Rank(m[b].accessed, b))
  }

  predicate IsOldest(m: Rows, h: nat) {
    h in m && forall k :: k in m ==> Older(m, h, k)
  }

  lemma {:induction false} OldestExists(m: Rows)
    requires m != map[]
    ensures exists h :: IsOldest(m, h)
    decreases |m|
  {
    var x :| x in m;
    var rest := m - {x};
    if rest == map[] {
      assert forall k :: k in m ==> k == x || k in rest;
      assert IsOldest(m, x);
    } else {
      OldestExists(rest);
      var y :| IsOldest(rest, y);
      var low := if Older(m, x, y) then x else y;
      forall k | k in m ensures Older(m, low, k) {
        if k != x { assert k in rest && Older(rest, y, k); }
      }
      assert IsOldest(m, low);
    }
  }

  function Oldest(m: Rows): (h: nat)
    requires m != map[]
    ensures IsOldest(m, h)
  {
    OldestExists(m);
    var h :| h in m && IsOldest(m, h);
    h
  }

  function LruOrder(m: Rows): (order: seq<nat>)
    ensures |order| == |m|
    decreases |m|
  {
    if m == map[] then [] else [Oldest(m)] + LruOrder(m - {Oldest(m)})
  }

  // The order lists every row once.
  lemma {:induction false} LruOrderListsRows(m: Rows)
    ensures forall h :: h in LruOrder(m) <==> h in m
    ensures forall i, j :: 0 <= i < j < |LruOrder(m)| ==> LruOrder(m)[i] != LruOrder(m)[j]
    decreases |m|
  {
    if m != map[] {
      var h := Oldest(m);
      LruOrderListsRows(m - {h});
      UnfoldOrder(m, h);
      PrependRow(m, h, LruOrder(m - {h}));
    }
  }

  lemma PrependRow(m: Rows, h: nat, rest: seq<nat>)
    requires h in m && (forall k :: k in rest <==> k in m - {h}) && Distinct(rest)
    ensures (forall k :: k in [h] + rest <==> k in m) && Distinct([h] + rest)
  {
    assert h !in rest;
  }

  ghost predicate SortedOrder(m: Rows, order: seq<nat>) {
    && (forall i :: 0 <= i < |order| ==> order[i] in m)
    && (forall i, j :: 0 <= i < j < |order| ==> Older(m, order[i], order[j]))
  }

  lemma PrependOldest(m: Rows, h: nat, rest: seq<nat>)
    requires IsOldest(m, h) && SortedOrder(m - {h}, rest)
    ensures SortedOrder(m, [h] + rest)
  {
    forall i, j | 0 <= i < j < |rest| ensures Older(m, rest[i], rest[j]) {
      assert Older(m - {h}, rest[i], rest[j]);
    }
  }

  // The order is by access time, then by hash.
  lemma {:induction false} LruOrderSorted(m: Rows)
    ensures SortedOrder(m, LruOrder(m))
    decreases |m|
  {
    if m != map[] {
      var h := Oldest(m);
      LruOrderSorted(m - {h});
      PrependOldest(m, h, LruOrder(m - {h}));
      UnfoldOrder(m, h);
    }
  }

  lemma OldestAfterRemoval(m: Rows, x: nat)
    requires m != map[] && x in m && x != Oldest(m)
    ensures m - {x} != map[] && Oldest(m - {x}) == Oldest(m)
  {
    var h, less := Oldest(m), m - {x};
    assert h in less;
    forall k | k in less ensures Older(less, h, k) { assert Older(m, h, k); }
    OldestUnique(less, h, Oldest(less));
  }

  function Gap(order: seq<nat>, i: nat): seq<nat>
    requires i < |order|
  {
    order[..i] + order[i + 1..]
  }

  lemma GapShift(h: nat, tail: seq<nat>, i: nat)
    requires i < |tail|
    ensures Gap([h] + tail, i + 1) == [h] + Gap(tail, i)
  {
  }

  lemma UnfoldOrder(m: Rows, h: nat)
    requires m != map[] && h == Oldest(m)
    ensures LruOrder(m) == [h] + LruOrder(m - {h})
  {
  }

  // Deleting a row closes the gap it leaves in the order.
  lemma {:induction false} LruOrderRemove(m: Rows, i: nat)
    requires i < |m|
    ensures LruOrder(m - {LruOrder(m)[i]}) == Gap(LruOrder(m), i)
    decreases |m|
  {
    var h := Oldest(m);
    UnfoldOrder(m, h);
    if i > 0 {
      var rest := m - {h};
      var tail := LruOrder(rest);
      var x := tail[i - 1];
      LruOrderRemove(rest, i - 1);
      GapShift(h, tail, i - 1);
      RowBehindOldest(m, h, x, i - 1);
      UnfoldOrder(m - {x}, h);
    }
  }

  lemma RemovalsCommute(m: Rows, a: nat, b: nat)
    ensures m - {a} - {b} == m - {b} - {a}
  {
  }

  lemma RowBehindOldest(m: Rows, h: nat, x: nat, i: nat)
    requires m != map[] && h == Oldest(m) && i < |m - {h}| && x == LruOrder(m - {h})[i]
    ensures x in m && x != h && m - {x} != map[] && Oldest(m - {x}) == h
    ensures m - {x} - {h} == m - {h} - {x}
  {
    LruOrderListsRows(m - {h});
    assert x in m - {h};
    OldestAfterRemoval(m, x);
    RemovalsCommute(m, x, h);
  }

  lemma OldestUnique(m: Rows, a: nat, b: nat)
    requires IsOldest(m, a) && IsOldest(m, b)
    ensures a == b
  {
    assert Older(m, a, b) && Older(m, b, a);
  }

  // Sizes ------------------------------------------------------------------------------------

  ghost function TotalSize(m: Rows): nat
    decreases |m|
  {
    if m == map[] then 0 else
      var h :| h in m;
      m[h].size + TotalSize(m - {h})
  }

  lemma {:induction false} TotalRemove(m: Rows, h: nat)
    requires h in m
    ensures TotalSize(m) == m[h].size + TotalSize(m - {h})
    decreases |m|
  {
    var o :| o in m && TotalSize(m) == m[o].size + TotalSize(m - {o});
    if h != o {
      TotalRemove(m - {o}, h);
      TotalRemove(m - {h}, o);
      RemovalsCommute(m, h, o);
    }
  }

  lemma TotalPut(m: Rows, h: nat, r: Row)
    ensures TotalSize(m[h := r]) == r.size + TotalSize(m) - if h in m then m[h].size else 0
  {
    TotalRemove(m[h := r], h);
    assert m[h := r] - {h} == m - {h};
    if h in m {
      TotalRemove(m, h);
    } else {
      assert m - {h} == m;
    }
  }

  // The table --------------------------------------------------------------------------------

  class MetadataIndex {
    var rows: Rows

    constructor ()
      ensures rows == map[]
    {
      rows := map[];
    }

    // Upsert: an existing row keeps counting its accesses, every other column is replaced.
    method Put(h: nat, size: nat, accessed: real, state: RowState)
      modifies this
      ensures h in rows && rows[h].size == size && rows[h].state == state && rows[h].accessed == accessed
      ensures rows[h].hits == if h in old(rows) then old(rows[h].hits) + 1 else 1
      ensures rows == old(rows)[h := rows[h]]
    {
      rows := rows[h := Row(size, accessed, if h in rows then rows[h].hits + 1 else 1, state)];
    }

    method Get(h: nat) returns (r: Option<Row>)
      ensures r.Some? <==> h in rows
      ensures r.Some? ==> r.value == rows[h]
    {
      r := if h in rows then Some(rows[h]) else None;
    }

    // The clock reading is whatever the operating system reports.
    method Touch(h: nat) returns (touched: bool)
      modifies this
      ensures touched <==> h in old(rows)
      ensures rows.Keys == old(rows).Keys
      ensures if touched then Touched(old(rows), rows, h) else rows == old(rows)
    {
      var now: real := *;
      touched := h in rows;
      if touched {
        rows := rows[h := rows[h].(accessed := now, hits := rows[h].hits + 1)];
      }
    }

    method Remove(h: nat) returns (removed: bool)
      modifies this
      ensures removed <==> h in old(rows)
      ensures rows == old(rows) - {h}
    {
      removed := h in rows;
      rows := rows - {h};
    }

    // Refuses exactly the transitions outside the state machine.
    method UpdateStatus(h: nat, status: RowState) returns (r: Result<bool, RowState>)
      modifies this
      ensures r.Failure? <==> h in old(rows) && !Allowed(old(rows)[h].state, status)
      ensures r.Failure? || h !in old(rows) ==> rows == old(rows)
      ensures r.Success? ==> (r.value <==> h in old(rows))
      ensures r.Success? && h in old(rows) ==> rows == old(rows)[h := old(rows)[h].(state := status)]
    {
      if h !in rows {
        return Success(false);
      }
      if !Allowed(rows[h].state, status) {
        return Failure(rows[h].state);
      }
      rows := rows[h := rows[h].(state := status)];
      r := Success(true);
    }

    method GetLruCandidates(limit: nat) returns (candidates: seq<nat>)
      requires limit > 0
      ensures candidates == LruOrder(rows)[..if |rows| < limit then |rows| else limit]
    {
      candidates := [];
      var rest := rows;
      while rest != map[] && |candidates| < limit
        invariant |candidates| <= limit && |candidates| + |rest| == |rows|
        invariant candidates + LruOrder(rest) == LruOrder(rows)
        decreases |rest|
      {
        var h := Oldest(rest);
        assert candidates + LruOrder(rest) == (candidates + [h]) + LruOrder(rest - {h});
        candidates := candidates + [h];
        rest := rest - {h};
      }
    }

    method GetTotalSize() returns (total: nat)
      ensures total == TotalSize(rows)
    {
      total := 0;
      var rest := rows;
      while rest != map[]
        invariant total + TotalSize(rest) == TotalSize(rows)
        decreases |rest|
      {
        var h :| h in rest;
        TotalRemove(rest, h);
        total := total + rest[h].size;
        rest := rest - {h};
      }
    }
  }
}
