/** A fixed number of slots, written in turn, as a view on an ideal log that is only appended to. The
    caches of onvif_discovery.c and the history buffers of metrics_module.c are such rings. */
module Ring {
  import opened Common

  /** The slot that entry `n` of the log is written to: the value of `next_index` after `n` steps of
      `next_index = (next_index + 1) % size`. */
  function Slot(size: nat, n: nat): (slot: nat)
    requires size > 0
    ensures slot < size
  {
    if n == 0 then 0 else Next(size, Slot(size, n - 1))
  }

  function Next(size: nat, slot: nat): (next: nat)
    requires slot < size
    ensures next < size
  {
    if slot + 1 == size then 0 else slot + 1
  }

  lemma {:induction false} SlotNext(size: nat, n: nat)
    requires size > 0
    ensures Slot(size, n + 1) == Next(size, Slot(size, n))
  {
  }

  /** The oldest entry that is still in a ring of `size` slots after `n` entries. */
  function Oldest(size: nat, n: nat): nat {
    if n <= size then 0 else n - size
  }

  /** The ring holds exactly the last entries of the log, each in its slot. */
  ghost predicate Represents<T>(slots: seq<T>, log: seq<T>) {
    && slots != []
    && forall k :: Oldest(|slots|, |log|) <= k < |log| ==> slots[Slot(|slots|, k)] == log[k]
  }

  /** The slot `d` entries further on. */
  lemma {:induction false} SlotAdvance(size: nat, n: nat, d: nat)
    requires d < size
    ensures var s := Slot(size, n) + d; Slot(size, n + d) == if s < size then s else s - size
  {
    if d > 0 {
      SlotAdvance(size, n, d - 1);
    }
  }

  /** Entries that are in the ring together have different slots. */
  lemma {:induction false} DifferentSlots(size: nat, a: nat, b: nat)
    requires a < b < a + size
    ensures Slot(size, a) != Slot(size, b)
  {
    SlotAdvance(size, a, b - a);
  }

  /** The index is the number of entries modulo the size. */
  lemma {:induction false} SlotIsRemainder(size: nat, n: nat)
    requires size > 0
    ensures Slot(size, n) == n % size
  {
    if n > 0 {
      SlotIsRemainder(size, n - 1);
      RemainderStep(size, n - 1);
    }
  }

  lemma {:induction false} RemainderStep(size: nat, n: nat)
    requires size > 0
    ensures (n + 1) % size == Next(size, n % size)
  {
    var (q, r) := (n / size, n % size);
    assert n == q * size + r;
    if r + 1 == size {
      assert n + 1 == (q + 1) * size by {
        assert (q + 1) * size == q * size + size;
      }
      UniqueRemainder(size, n + 1, q + 1, 0);
    } else {
      UniqueRemainder(size, n + 1, q, r + 1);
    }
  }

  lemma {:induction false} UniqueRemainder(size: nat, n: nat, q: nat, r: nat)
    requires r < size && n == q * size + r
    ensures n % size == r
  {
    var d := n / size - q;
    assert d * size == r - n % size by {
      assert n == n / size * size + n % size;
      assert (n / size - q) * size == n / size * size - q * size;
    }
    MultipleIsFar(d, size);
  }

  /** Writing the next slot appends to the log. */
  lemma {:induction false} Append<T>(slots: seq<T>, log: seq<T>, x: T)
    requires Represents(slots, log)
    ensures Represents(slots[Slot(|slots|, |log|) := x], log + [x])
  {
    hide Slot;
    var (size, n) := (|slots|, |log|);
    forall k | Oldest(size, n + 1) <= k < n + 1
      ensures slots[Slot(size, n) := x][Slot(size, k)] == (log + [x])[k]
    {
      if k < n {
        DifferentSlots(size, k, n);
      }
    }
  }

  /** Writing the slot of an entry that is still in the ring updates the log. */
  lemma {:induction false} Update<T>(slots: seq<T>, log: seq<T>, k: nat, x: T)
    requires Represents(slots, log) && Oldest(|slots|, |log|) <= k < |log|
    ensures Represents(slots[Slot(|slots|, k) := x], log[k := x])
  {
    hide Slot;
    var size := |slots|;
    forall m | Oldest(size, |log|) <= m < |log|
      ensures slots[Slot(size, k) := x][Slot(size, m)] == log[k := x][m]
    {
      if m < k {
        DifferentSlots(size, m, k);
      } else if k < m {
        DifferentSlots(size, k, m);
      }
    }
  }

  /** The entry in a used slot. */
  lemma {:induction false} Owner(size: nat, n: nat, i: nat) returns (k: nat)
    requires i < size && (i < n || size <= n)
    ensures Oldest(size, n) <= k < n && Slot(size, k) == i
  {
    var first := Oldest(size, n);
    var r := Slot(size, first);
    if n <= size {
      SlotAdvance(size, 0, i);
      k := i;
    } else if i >= r {
      SlotAdvance(size, first, i - r);
      k := first + (i - r);
    } else {
      SlotAdvance(size, first, i + size - r);
      k := first + (i + size - r);
    }
  }

  /** The first entries fill the slots in order. */
  lemma {:induction false} FirstRound(size: nat, k: nat)
    requires k < size
    ensures Slot(size, k) == k
  {
    SlotAdvance(size, 0, k);
  }
}
