/** A ring of ten slots (NUMBER_OF_QWINDOWS) that keeps the newest entries of an unbounded log. */
module Ring {
  ghost predicate Shape<T>(slots: seq<T>, head: nat, count: nat) {
    && |slots| == 10
    && head < 10
    && (count == 0 || count == head + 1 || count == 10)
  }

  /** The entries of the ring, oldest first. */
  ghost function Entries<T>(slots: seq<T>, head: nat, count: nat): (es: seq<T>)
    requires Shape(slots, head, count)
    ensures |es| == count
  {
    if count < 10 then slots[..count] else slots[head + 1..] + slots[..head + 1]
  }

  /** What the ring has left of `log`. */
  function Retained<T>(log: seq<T>): (kept: seq<T>)
    ensures |kept| == if |log| <= 10 then |log| else 10
  {
    if |log| <= 10 then log else log[|log| - 10..]
  }

  ghost predicate Holds<T>(slots: seq<T>, head: nat, count: nat, log: seq<T>) {
    Shape(slots, head, count) && Entries(slots, head, count) == Retained(log)
  }

  function NextHead(head: nat, count: nat): nat {
    if count == 0 || head == 9 then 0 else head + 1
  }

  function NextCount(count: nat): nat {
    if count < 10 then count + 1 else count
  }

  function SlotOf(head: nat, i: nat): nat
    requires head < 10 && i < 10
  {
    if i <= head then head - i else head + 10 - i
  }

  lemma {:induction false} EntryInSlot<T>(slots: seq<T>, head: nat, count: nat, i: nat, k: nat)
    requires Shape(slots, head, count) && i < count
    requires k == SlotOf(head, i)
    ensures k < 10 && Entries(slots, head, count)[count - 1 - i] == slots[k]
  {
    if count == 10 {
      var aged, young := slots[head + 1..], slots[..head + 1];
      if i <= head {
        assert (aged + young)[9 - i] == young[head - i];
      } else {
        assert (aged + young)[9 - i] == aged[9 - i];
      }
    }
  }

  lemma {:induction false} CountIsLength<T>(slots: seq<T>, head: nat, count: nat, log: seq<T>)
    requires Holds(slots, head, count, log)
    ensures count == if |log| < 10 then |log| else 10
    ensures count == |Retained(log)|
  {
  }

  lemma {:induction false} RetainedAt<T>(log: seq<T>, i: nat)
    requires i < |Retained(log)|
    ensures Retained(log)[|Retained(log)| - 1 - i] == log[|log| - 1 - i]
  {
  }

  lemma {:induction false} RetainedIsSuffix<T>(log: seq<T>)
    ensures var kept := Retained(log);
            forall j: nat :: j < |kept| ==> kept[j] == log[|log| - |kept| + j]
  {
  }

  /** Counting `i` slots back from the head, around the ring, finds the i-th newest retained entry of the log. */
  lemma {:induction false} EntryAt<T>(slots: seq<T>, head: nat, count: nat, log: seq<T>, i: nat)
    requires Holds(slots, head, count, log) && i < count
    ensures SlotOf(head, i) < |slots| && count == |Retained(log)|
    ensures slots[SlotOf(head, i)] == Retained(log)[count - 1 - i]
  {
    EntryInSlot(slots, head, count, i, SlotOf(head, i));
  }

  lemma {:induction false} AppendToPartial<T>(slots: seq<T>, head: nat, count: nat, log: seq<T>, w: T)
    requires Holds(slots, head, count, log) && count < 10
    ensures NextHead(head, count) == count
    ensures Holds(slots[count := w], count, count + 1, log + [w])
  {
    RetainedSnoc(log, w);
    assert slots[count := w][..count + 1] == slots[..count] + [w];
    if count == 9 {
      assert slots[count := w][10..] + slots[count := w][..10] == slots[count := w][..10];
    }
  }

  /** Overwriting the oldest entry of a full ring. */
  lemma {:induction false} OverwriteOldest<T>(slots: seq<T>, head: nat, h: nat, w: T)
    requires Shape(slots, head, 10) && h == if head == 9 then 0 else head + 1
    ensures Shape(slots[h := w], h, 10)
    ensures Entries(slots[h := w], h, 10) == Entries(slots, head, 10)[1..] + [w]
  {
    if head == 9 {
      assert slots[0 := w][..1] == [w];
      assert slots[0 := w][1..] == slots[1..];
      assert Entries(slots, 9, 10) == slots;
    } else {
      assert slots[h := w][..h + 1] == slots[..h] + [w];
      assert slots[h := w][h + 1..] == slots[h + 1..];
      assert (slots[h..] + slots[..h])[1..] == slots[h + 1..] + slots[..h];
    }
  }

  lemma {:induction false} RetainedSnoc<T>(log: seq<T>, w: T)
    ensures Retained(log + [w]) == if |log| < 10 then Retained(log) + [w] else Retained(log)[1..] + [w]
  {
  }

  lemma {:induction false} AppendToFull<T>(slots: seq<T>, head: nat, log: seq<T>, w: T)
    requires Holds(slots, head, 10, log)
    ensures NextHead(head, 10) == if head == 9 then 0 else head + 1
    ensures Holds(slots[NextHead(head, 10) := w], NextHead(head, 10), 10, log + [w])
  {
    OverwriteOldest(slots, head, NextHead(head, 10), w);
    RetainedSnoc(log, w);
  }

  /** Advancing the head and writing there drops the oldest of ten entries and appends the new one. */
  lemma {:induction false} Append<T>(slots: seq<T>, head: nat, count: nat, log: seq<T>, w: T)
    requires Holds(slots, head, count, log)
    ensures 0 <= NextHead(head, count) < |slots|
    ensures Holds(slots[NextHead(head, count) := w], NextHead(head, count), NextCount(count), log + [w])
  {
    if count < 10 {
      AppendToPartial(slots, head, count, log, w);
    } else {
      AppendToFull(slots, head, log, w);
    }
  }

  /** Writing at the head replaces the newest entry. */
  lemma {:induction false} ReplaceNewest<T>(slots: seq<T>, head: nat, count: nat, log: seq<T>, w: T)
    requires Holds(slots, head, count, log) && log != []
    ensures Holds(slots[head := w], head, count, log[|log| - 1 := w])
  {
    assert Retained(log[|log| - 1 := w]) == Retained(log)[count - 1 := w];
    assert Entries(slots[head := w], head, count) == Entries(slots, head, count)[count - 1 := w];
  }
}
