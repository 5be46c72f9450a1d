// The shape every output-tensor decoder shares: a loop over the rows of the
// tensor that, row by row, either throws, skips the row or appends one result
// to a buffer under a counter. `Collect` is that loop as a function of the
// per-row step; the lemmas say which rows end up in the buffer, in which
// order, and which exception escapes.

module Rows {
  import opened Common

  /** A row that passes the filter: the step yields Some. */
  predicate Yields<T>(step: Result<Option<T>>)
  {
    step.Ok? && step.value.Some?
  }

  /** The buffer after the first n rows: the values of the rows that yield, in row order, or the first row's exception. */
  function Collect<T>(f: nat -> Result<Option<T>>, n: nat): (r: Result<seq<T>>)
    ensures r.Ok? ==> |r.value| <= n
    decreases n
  {
    if n == 0 then Ok([])
    else
      var prev := Collect(f, n - 1);
      if prev.Err? then prev
      else
        var cur := f(n - 1);
        if cur.Err? then Err(cur.error)
        else if cur.value.None? then prev
        else Ok(prev.value + [cur.value.value])
  }

  /** The rows below n that yield, in increasing order. */
  function KeptRows<T>(f: nat -> Result<Option<T>>, n: nat): (rows: seq<nat>)
    ensures |rows| <= n
    ensures forall j :: 0 <= j < |rows| ==> rows[j] < n
    decreases n
  {
    if n == 0 then []
    else KeptRows(f, n - 1) + (if Yields(f(n - 1)) then [n - 1] else [])
  }

  /** One more row: the buffer grows by the row's value exactly when the row yields. */
  lemma CollectStep<T>(f: nat -> Result<Option<T>>, n: nat, prev: seq<T>)
    requires Collect(f, n) == Ok(prev)
    ensures f(n).Err? ==> Collect(f, n + 1) == Err(f(n).error)
    ensures f(n).Ok? && f(n).value.None? ==> Collect(f, n + 1) == Ok(prev)
    ensures Yields(f(n)) ==> Collect(f, n + 1) == Ok(prev + [f(n).value.value])
  {
  }

  /**
   * The loop throws exactly when some row throws, and then with the first
   * such row's exception, every earlier row having gone through.
   */
  lemma {:induction false} CollectFails<T>(f: nat -> Result<Option<T>>, n: nat)
    ensures Collect(f, n).Err? <==> exists r :: 0 <= r < n && f(r).Err?
    ensures Collect(f, n).Err? ==>
              exists r :: 0 <= r < n && f(r).Err? && Collect(f, n).error == f(r).error &&
                          forall q :: 0 <= q < r ==> f(q).Ok?
    decreases n
  {
    if n > 0 {
      CollectFails(f, n - 1);
      if Collect(f, n - 1).Err? {
        var r :| 0 <= r < n - 1 && f(r).Err? && Collect(f, n - 1).error == f(r).error &&
                 forall q :: 0 <= q < r ==> f(q).Ok?;
        assert Collect(f, n) == Collect(f, n - 1);
      } else if f(n - 1).Err? {
        assert forall q :: 0 <= q < n - 1 ==> f(q).Ok?;
      }
    }
  }

  /**
   * On success the buffer holds exactly the values of the rows that yield,
   * in row order: its length is the number of such rows (at most n), entry j
   * is the value of the j-th such row, and a row is among them iff it yields.
   */
  lemma {:induction false} CollectKept<T>(f: nat -> Result<Option<T>>, n: nat)
    requires Collect(f, n).Ok?
    ensures |Collect(f, n).value| == |KeptRows(f, n)| <= n
    ensures forall j :: 0 <= j < |KeptRows(f, n)| ==>
              f(KeptRows(f, n)[j]) == Ok(Some(Collect(f, n).value[j]))
    ensures forall j, k :: 0 <= j < k < |KeptRows(f, n)| ==> KeptRows(f, n)[j] < KeptRows(f, n)[k]
    ensures forall r :: 0 <= r < n ==> (r in KeptRows(f, n) <==> Yields(f(r)))
    decreases n
  {
    if n > 0 {
      CollectKept(f, n - 1);
      var rows := KeptRows(f, n - 1);
      var out := Collect(f, n - 1).value;
      if Yields(f(n - 1)) {
        assert KeptRows(f, n) == rows + [n - 1];
        assert Collect(f, n).value == out + [f(n - 1).value.value];
      } else {
        assert KeptRows(f, n) == rows;
      }
    }
  }

  /** The buffer only grows: a run that gets through n rows got through every m <= n with a prefix of the buffer. */
  lemma {:induction false} CollectPrefix<T>(f: nat -> Result<Option<T>>, m: nat, n: nat)
    requires m <= n && Collect(f, n).Ok?
    ensures Collect(f, m).Ok? && |Collect(f, m).value| <= |Collect(f, n).value|
    ensures Collect(f, m).value == Collect(f, n).value[..|Collect(f, m).value|]
    decreases n - m
  {
    if m < n {
      CollectPrefix(f, m, n - 1);
      var a, b := Collect(f, m).value, Collect(f, n - 1).value;
      assert b[..|a|] == a;
      if Yields(f(n - 1)) {
        assert Collect(f, n).value == b + [f(n - 1).value.value];
        assert (b + [f(n - 1).value.value])[..|a|] == b[..|a|];
      }
    }
  }

  /**
   * A loop that stops early, because row m-1 threw or because a buffer of
   * `capacity` slots overflowed by then, ends the same way after all n rows.
   */
  lemma CollectEarlyExit<T>(f: nat -> Result<Option<T>>, m: nat, n: nat, capacity: int)
    requires m <= n && (Collect(f, m).Err? || |Collect(f, m).value| > capacity)
    ensures Collect(f, n).Err? || |Collect(f, n).value| > capacity
  {
    if Collect(f, n).Ok? {
      CollectPrefix(f, m, n);
    }
  }

  /**
   * One pass of a loop that stores each kept row in a buffer of `capacity`
   * slots: a row that throws, or a kept row that finds the buffer full, ends
   * the loop the way the whole run ends; otherwise the buffer grows by the
   * row's value exactly when it yields.
   */
  lemma BufferStep<T>(f: nat -> Result<Option<T>>, row: nat, n: nat, buffer: seq<T>, capacity: int)
    requires row < n && Collect(f, row) == Ok(buffer) && |buffer| <= capacity
    ensures f(row).Err? || (Yields(f(row)) && |buffer| == capacity) ==>
              Collect(f, n).Err? || |Collect(f, n).value| > capacity
    ensures f(row).Ok? && f(row).value.None? ==> Collect(f, row + 1) == Ok(buffer)
    ensures Yields(f(row)) ==> Collect(f, row + 1) == Ok(buffer + [f(row).value.value])
  {
    CollectStep(f, row, buffer);
    if f(row).Err? || (Yields(f(row)) && |buffer| == capacity) {
      CollectEarlyExit(f, row + 1, n, capacity);
    }
  }

  /** A run that has thrown by row m ends with that exception however many rows follow. */
  lemma {:induction false} CollectFirstError<T>(f: nat -> Result<Option<T>>, m: nat, n: nat)
    requires m <= n && Collect(f, m).Err?
    ensures Collect(f, n) == Collect(f, m)
    decreases n - m
  {
    if m < n {
      CollectFirstError(f, m, n - 1);
    }
  }

  /** A row that throws after the earlier rows went through ends the whole run with its exception. */
  lemma {:induction false} StepThrows<T>(f: nat -> Result<Option<T>>, row: nat, n: nat, buffer: seq<T>)
    requires row < n && Collect(f, row) == Ok(buffer) && f(row).Err?
    ensures Collect(f, n) == Err(f(row).error)
  {
    CollectStep(f, row, buffer);
    assert Collect(f, row + 1) == Err(f(row).error);
    CollectFirstError(f, row + 1, n);
  }

  /** Every exception a row can raise is an index out of range. */
  ghost predicate OnlyIndexErrors<T>(f: nat -> Result<Option<T>>, n: nat)
  {
    forall r: nat :: r < n && f(r).Err? ==> f(r).error == IndexOutOfRange
  }

  /** Whatever holds of the value of every row that yields holds of every entry of the buffer. */
  lemma CollectAll<T>(f: nat -> Result<Option<T>>, n: nat, P: T -> bool)
    requires Collect(f, n).Ok?
    requires forall r: nat :: r < n && Yields(f(r)) ==> P(f(r).value.value)
    ensures forall j :: 0 <= j < |Collect(f, n).value| ==> P(Collect(f, n).value[j])
  {
    CollectKept(f, n);
    forall j | 0 <= j < |Collect(f, n).value|
      ensures P(Collect(f, n).value[j])
    {
      assert f(KeptRows(f, n)[j]) == Ok(Some(Collect(f, n).value[j]));
    }
  }

  /** Where each kept value says its row starts: stride * r for row r. */
  ghost predicate KeyedByRow<T>(f: nat -> Result<Option<T>>, n: nat, key: T -> int, stride: int)
  {
    forall r: nat :: r < n && Yields(f(r)) ==> key(f(r).value.value) == stride * r
  }

  /** Entry j of the buffer comes from the j-th kept row, and says so. */
  lemma CollectKeyOfEntry<T>(f: nat -> Result<Option<T>>, n: nat, key: T -> int, stride: int, j: int)
    requires Collect(f, n).Ok? && KeyedByRow(f, n, key, stride)
    requires 0 <= j < |Collect(f, n).value|
    ensures j < |KeptRows(f, n)| && Yields(f(KeptRows(f, n)[j]))
    ensures Collect(f, n).value[j] == f(KeptRows(f, n)[j]).value.value
    ensures key(Collect(f, n).value[j]) == stride * KeptRows(f, n)[j]
  {
    CollectKept(f, n);
    assert f(KeptRows(f, n)[j]) == Ok(Some(Collect(f, n).value[j]));
  }

  /** The buffer is ordered by where its rows start. */
  lemma CollectKeysIncrease<T>(f: nat -> Result<Option<T>>, n: nat, key: T -> int, stride: int)
    requires stride >= 1 && Collect(f, n).Ok? && KeyedByRow(f, n, key, stride)
    ensures forall j, k :: 0 <= j < k < |Collect(f, n).value| ==> key(Collect(f, n).value[j]) < key(Collect(f, n).value[k])
  {
    var out := Collect(f, n).value;
    CollectKept(f, n);
    forall j, k | 0 <= j < k < |out|
      ensures key(out[j]) < key(out[k])
    {
      CollectKeyOfEntry(f, n, key, stride, j);
      CollectKeyOfEntry(f, n, key, stride, k);
      MulMonotone(KeptRows(f, n)[j] + 1, KeptRows(f, n)[k], stride);
    }
  }

  /** A row is kept exactly when some entry of the buffer starts where the row does. */
  lemma CollectKeyFound<T>(f: nat -> Result<Option<T>>, n: nat, key: T -> int, stride: int, r: nat)
    requires stride >= 1 && Collect(f, n).Ok? && KeyedByRow(f, n, key, stride) && r < n
    ensures Yields(f(r)) <==> exists j :: 0 <= j < |Collect(f, n).value| && key(Collect(f, n).value[j]) == stride * r
  {
    if Yields(f(r)) {
      var j := CollectEntryOfRow(f, n, r);
      CollectKeyOfEntry(f, n, key, stride, j);
    } else if j :| 0 <= j < |Collect(f, n).value| && key(Collect(f, n).value[j]) == stride * r {
      CollectKeyOfEntry(f, n, key, stride, j);
      MulInjective(KeptRows(f, n)[j], r, stride);
    }
  }

  /** The entry a kept row lands at. */
  lemma CollectEntryOfRow<T>(f: nat -> Result<Option<T>>, n: nat, r: nat) returns (j: nat)
    requires Collect(f, n).Ok? && r < n && Yields(f(r))
    ensures j < |Collect(f, n).value| && j < |KeptRows(f, n)| && KeptRows(f, n)[j] == r
  {
    CollectKept(f, n);
    var rows := KeptRows(f, n);
    assert r in rows;
    j :| 0 <= j < |rows| && rows[j] == r;
  }

  lemma MulInjective(a: int, b: int, c: int)
    requires c >= 1 && c * a == c * b
    ensures a == b
  {
    if a < b {
      MulMonotone(a + 1, b, c);
    } else if a > b {
      MulMonotone(b + 1, a, c);
    }
  }

  /** The step of a loop over rows: a positive number of values per row. */
  type Stride = s: int | s >= 1 witness 1

  /**
   * The tail of one pass of a decoder loop: a row that threw passes its
   * exception on; a skipped row leaves the buffer as it was; a kept row goes
   * into the next slot and the counter moves on (`boxes[validBoxCount++] =`),
   * and a full buffer throws IndexOutOfRangeException. Either exception is
   * the one the whole run ends with.
   */
  method StoreRow<T>(boxes: array<T>, count: nat, step: Result<Option<T>>, ghost f: nat -> Result<Option<T>>, ghost row: nat, ghost n: nat)
    returns (r: Result<nat>)
    requires row < n && step == f(row) && count <= boxes.Length && Collect(f, row) == Ok(boxes[..count])
    modifies boxes
    ensures r.Err? ==> r.error == (if step.Err? then step.error else IndexOutOfRange) &&
                       (Collect(f, n).Err? || |Collect(f, n).value| > boxes.Length)
    ensures r.Ok? ==> r.value <= boxes.Length && Collect(f, row + 1) == Ok(boxes[..r.value])
    ensures step.Ok? && step.value.None? ==> r == Ok(count)
  {
    BufferStep(f, row, n, boxes[..count], boxes.Length);
    if step.Err? {
      return Err(step.error);
    }
    if step.value.None? {
      return Ok(count);
    }
    if count >= boxes.Length {
      return Err(IndexOutOfRange);
    }
    ghost var before := boxes[..count];
    boxes[count] := step.value.value;
    assert boxes[..count + 1] == before + [step.value.value];
    r := Ok(count + 1);
  }

  /** The slots of a buffer that hold a value, in slot order (`Where(x => x is not null)`). */
  function Present<T>(s: seq<Option<T>>): (r: seq<T>)
    ensures |r| <= |s|
  {
    if |s| == 0 then [] else Present(s[..|s| - 1]) + (if s[|s| - 1].Some? then [s[|s| - 1].value] else [])
  }

  /**
   * A loop that gives row r its own slot: when the slots of the first r rows
   * filtered are the run so far, the next row's slot extends it the same way.
   */
  lemma CollectSlot<T>(f: nat -> Result<Option<T>>, r: nat, slots: seq<Option<T>>, slot: Option<T>)
    requires Collect(f, r) == Ok(Present(slots)) && f(r) == Ok(slot)
    ensures Collect(f, r + 1) == Ok(Present(slots + [slot]))
  {
    var longer := slots + [slot];
    assert longer[..|longer| - 1] == slots && longer[|longer| - 1] == slot;
    assert Present(longer) == Present(slots) + (if slot.Some? then [slot.value] else []);
    CollectStep(f, r, Present(slots));
    if slot.None? {
      assert Present(slots) + [] == Present(slots);
    }
  }

  /** The number of iterations of `for (i = 0; i < length; i += stride)`. */
  function RowCount(length: int, stride: int): (n: nat)
    requires stride >= 1
  {
    if length <= 0 then 0 else (length + stride - 1) / stride
  }

  /** Row r starts inside the tensor exactly when r is below the row count. */
  lemma RowCountBound(length: int, stride: int, r: nat)
    requires stride >= 1
    ensures r * stride < length <==> r < RowCount(length, stride)
  {
    if length > 0 {
      var n := RowCount(length, stride);
      assert (n - 1) * stride < length <= n * stride by {
        assert n * stride <= length + stride - 1 < n * stride + stride;
      }
      if r < n {
        MulMonotone(r, n - 1, stride);
      } else {
        MulMonotone(n, r, stride);
      }
    }
  }

  lemma MulMonotone(a: int, b: int, c: int)
    requires a <= b && c >= 0
    ensures a * c <= b * c
  {
    assert b * c - a * c == (b - a) * c;
  }

  /** A stride-s loop over a tensor of s or more values runs no more rows than the tensor has values. */
  lemma RowCountAtMostLength(length: int, stride: int)
    requires stride >= 1
    ensures RowCount(length, stride) <= (if length < 0 then 0 else length)
  {
    if length > 0 {
      var n := RowCount(length, stride);
      RowCountBound(length, stride, n - 1);
      MulMonotone(1, stride, n - 1);
    }
  }
}
