/** The frame-time overlay: a fixed-size history of the most recent frame
    times, kept in an array with a cursor `head` at the newest entry. The
    element type is left abstract; only the index discipline is modelled. */
module Perf {

  /** The history length that `PerfGraph::new` sets. */
  const HistoryCount: nat := 100

  /** The cursor step of `update`. */
  function Advance(head: nat, count: nat): (r: nat)
    requires count > 0
    ensures r < count
    ensures head < count ==> (if head == count - 1 then r == 0 else r == head + 1)
  {
    (head + 1) % count
  }

  /** The cursor after `k` updates. */
  function AdvanceTimes(head: nat, count: nat, k: nat): nat
    requires count > 0
    decreases k
  {
    if k == 0 then head else Advance(AdvanceTimes(head, count, k - 1), count)
  }

  /** Within one lap, `k` updates move the cursor `k` places on, wrapping
      past the last slot back to slot 0 at most once. */
  lemma {:induction false} AdvanceTimesWraps(head: nat, count: nat, k: nat)
    requires head < count && k <= count
    ensures AdvanceTimes(head, count, k) == if head + k < count then head + k else head + k - count
    decreases k
  {
    if k > 0 {
      AdvanceTimesWraps(head, count, k - 1);
    }
  }

  /** `history_count` consecutive updates bring the cursor back to where it
      was. */
  lemma FullCycleRestoresHead(head: nat, count: nat)
    requires head < count
    ensures AdvanceTimes(head, count, count) == head
  {
    AdvanceTimesWraps(head, count, count);
  }

  /** The slot the render loop reads at step `i`. */
  function RenderSlot(head: nat, count: nat, i: nat): (r: nat)
    requires count > 0
    ensures r < count
  {
    (head + i) % count
  }

  /** For `head < count` and `i < count`, the slot is `head + i` wrapped at
      most once. */
  lemma RenderSlotWrapsOnce(head: nat, count: nat, i: nat)
    requires head < count && i < count
    ensures RenderSlot(head, count, i) == if head + i < count then head + i else head + i - count
  {
    if head + i >= count {
      assert head + i == 1 * count + (head + i - count);
    }
  }

  /** The step of the render loop at which `slot` is read. */
  function StepOfSlot(head: nat, count: nat, slot: nat): (i: nat)
    requires head < count && slot < count
    ensures i < count
  {
    if head <= slot then slot - head else slot + count - head
  }

  /** The render walk visits every slot exactly once: distinct steps read
      distinct slots, and every slot is read at the step `StepOfSlot` names. */
  lemma RenderWalkIsPermutation(head: nat, count: nat)
    requires head < count
    ensures forall i, j :: 0 <= i < j < count ==> RenderSlot(head, count, i) != RenderSlot(head, count, j)
    ensures forall slot :: 0 <= slot < count ==> RenderSlot(head, count, StepOfSlot(head, count, slot)) == slot
  {
    forall i, j | 0 <= i < j < count
      ensures RenderSlot(head, count, i) != RenderSlot(head, count, j)
    {
      RenderSlotWrapsOnce(head, count, i);
      RenderSlotWrapsOnce(head, count, j);
    }
    forall slot | 0 <= slot < count
      ensures RenderSlot(head, count, StepOfSlot(head, count, slot)) == slot
    {
      RenderSlotWrapsOnce(head, count, StepOfSlot(head, count, slot));
    }
  }

  /** The history read from slot `k` round the ring. */
  function Rotation<T>(s: seq<T>, k: nat): (r: seq<T>)
    requires k <= |s|
    ensures |r| == |s|
    ensures multiset(r) == multiset(s)
  {
    assert s == s[..k] + s[k..];
    s[k..] + s[..k]
  }

  /** Entry `i` of the rotation is what the render loop reads at step `i`. */
  lemma RotationAt<T>(s: seq<T>, k: nat, i: nat)
    requires k < |s| && i < |s|
    ensures Rotation(s, k)[i] == s[RenderSlot(k, |s|, i)]
  {
    RenderSlotWrapsOnce(k, |s|, i);
  }

  class PerfGraph<T> {
    var historyCount: nat
    var values: array<T>
    var head: nat

    ghost predicate Valid()
      reads this
    {
      0 < historyCount && values.Length == historyCount && head < historyCount
    }

    /** `PerfGraph::new`: 100 slots, all holding `zero`, cursor at slot 0. */
    constructor (zero: T)
      ensures Valid() && fresh(values)
      ensures historyCount == HistoryCount && head == 0
      ensures forall i :: 0 <= i < values.Length ==> values[i] == zero
    {
      historyCount := HistoryCount;
      values := new T[HistoryCount](_ => zero);
      head := 0;
    }

    /** `update`: move the cursor one slot on and store the new frame time
        there; every other slot keeps its value. */
    method Update(frameTime: T)
      requires Valid()
      modifies this`head, values
      ensures Valid()
      ensures head == Advance(old(head), historyCount)
      ensures values[head] == frameTime
      ensures forall i :: 0 <= i < values.Length && i != head ==> values[i] == old(values[i])
    {
      head := (head + 1) % historyCount;
      values[head] := frameTime;
    }

    /** The values in the order the render loop of `render` reads them:
        starting at the cursor, that is at the newest value, then from the
        oldest round to the second newest. */
    method RenderOrder() returns (walk: seq<T>)
      requires Valid()
      ensures walk == Rotation(values[..], head)
      ensures |walk| == historyCount && walk[0] == values[head]
      ensures multiset(walk) == multiset(values[..])
    {
      walk := [];
      for i := 0 to historyCount
        invariant |walk| == i
        invariant forall j :: 0 <= j < i ==> walk[j] == values[RenderSlot(head, historyCount, j)]
      {
        walk := walk + [values[(head + i) % historyCount]];
      }
      forall j | 0 <= j < historyCount
        ensures walk[j] == Rotation(values[..], head)[j]
      {
        RotationAt(values[..], head, j);
      }
    }
  }
}
