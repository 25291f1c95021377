/** The growable FIFO ring buffer of src/utils/circular-buffer.ts, which
    queues the writes of the storage layer. */
module CircularBuffer {
  import opened Wrappers

  /** A fresh array of twice the length of `a`: the first `at` slots of `a`,
      then `a.Length` empty slots, then the rest of `a`. This is the
      `start.concat(Array(size), end)` of `push`; with `at == a.Length` it is
      the growth of a JavaScript array written one past its end. */
  method Spliced<T>(a: array<Option<T>>, at: nat) returns (b: array<Option<T>>)
    requires at <= a.Length
    ensures fresh(b) && b.Length == 2 * a.Length
    ensures forall i :: 0 <= i < at ==> b[i] == a[i]
    ensures forall i :: at <= i < at + a.Length ==> b[i] == None
    ensures forall i :: at <= i < a.Length ==> b[i + a.Length] == a[i]
  {
    var n := a.Length;
    b := new Option<T>[2 * n](_ => None);
    for i := 0 to at
      invariant forall j :: 0 <= j < i ==> b[j] == a[j]
      invariant forall j :: i <= j < 2 * n ==> b[j] == None
    {
      b[i] := a[i];
    }
    for i := at to n
      invariant forall j :: 0 <= j < at ==> b[j] == a[j]
      invariant forall j :: at <= j < at + n ==> b[j] == None
      invariant forall j :: at <= j < i ==> b[j + n] == a[j]
      invariant forall j :: n + i <= j < 2 * n ==> b[j] == None
    {
      b[i + n] := a[i];
    }
  }

  /** One step round a ring of `n` slots. */
  lemma StepRound(x: nat, n: nat)
    requires x < n
    ensures (x + 1) % n == if x + 1 == n then 0 else x + 1
  {
  }

  class CircularBuffer<T> {
    /** The backing array (`array`); an empty slot is an array hole. */
    var slots: array<Option<T>>
    /** Where the next item goes. */
    var head: nat
    /** Where the oldest item is. */
    var tail: nat
    var size: nat

    /** The queued items, oldest first. */
    ghost var Contents: seq<T>
    ghost var Repr: set<object>

    /** The slot of the `i`-th queued item, counting round from `tail`. */
    ghost function Slot(i: nat): nat
      reads this
    {
      if tail + i < size then tail + i else tail + i - size
    }

    /** Whether slot `j` holds one of the queued items. */
    ghost predicate Occupied(j: nat)
      reads this
    {
      if tail + |Contents| <= size then tail <= j < tail + |Contents|
      else tail <= j || j < tail + |Contents| - size
    }

    /** The layout of the queued items in the slots, allowing a full buffer. */
    ghost predicate Laid()
      reads this, Repr
    {
      && Repr == {this, slots}
      && slots.Length == size
      && 1 <= size && head < size && tail < size
      && |Contents| <= size
      && head == Slot(|Contents|)
      && (forall i :: 0 <= i < |Contents| ==> slots[Slot(i)] == Some(Contents[i]))
      // a popped item is deleted from its slot
      && (forall j :: 0 <= j < size && slots[j].Some? ==> Occupied(j))
    }

    ghost predicate Valid()
      reads this, Repr
    {
      // the buffer is never left full: a push that fills it grows it
      Laid() && |Contents| < size
    }

    /** `new CircularBuffer(options)`: empty, with `initialSize` slots, 256 by default. */
    constructor (initialSize: Option<nat>)
      requires initialSize.None? || initialSize.value >= 1
      ensures Valid() && fresh(Repr)
      ensures Contents == []
      ensures size == if initialSize.Some? then initialSize.value else 256
    {
      var n := if initialSize.Some? then initialSize.value else 256;
      slots := new Option<T>[n](_ => None);
      head := 0;
      tail := 0;
      size := n;
      Contents := [];
      Repr := {this, slots};
    }

    /** `length`: the number of queued items. */
    function Length(): (l: nat)
      reads this, Repr
      requires Valid()
      ensures l == |Contents|
    {
      if head < tail then head + size - tail else head - tail
    }

    /** `push`: queue `item` last. When that fills the buffer its size doubles,
        leaving the queued items where they were (when the head wrapped round to
        slot 0) or moving the run from `tail` to the end of the new array. */
    method Push(item: T)
      requires Valid()
      modifies Repr
      ensures Valid() && fresh(Repr - old(Repr))
      ensures Contents == old(Contents) + [item]
      ensures size == if |old(Contents)| + 1 == old(size) then 2 * old(size) else old(size)
    {
      Place(item);
      if head == tail {
        Grow();
      }
    }

    /** The write of `push`: the item goes into the head slot and the head
        moves on; the buffer may now be full. */
    method Place(item: T)
      requires Valid()
      modifies this, slots
      ensures Laid() && Repr == old(Repr) && size == old(size)
      ensures Contents == old(Contents) + [item]
      ensures head == tail <==> |Contents| == size
    {
      slots[head] := Some(item);
      StepRound(head, size);
      head := (head + 1) % size;
      Contents := Contents + [item];
    }

    /** The growth step of `push`, once the buffer is full: double the size. */
    method Grow()
      requires Laid() && |Contents| == size
      modifies this
      ensures Valid() && fresh(Repr - old(Repr))
      ensures Contents == old(Contents) && size == 2 * old(size)
      ensures old(head) == 0 ==> head == old(size) && tail == old(tail)
      ensures old(head) != 0 ==> head == old(head) && tail == old(tail) + old(size)
    {
      if head == 0 {
        slots := Spliced(slots, size);
        head := head + size;
      } else {
        slots := Spliced(slots, head);
        tail := tail + size;
      }
      size := size * 2;
      Repr := {this, slots};
    }

    /** `pop`: take the oldest item out and free its slot; None (`undefined`)
        when the buffer is empty. */
    method Pop() returns (item: Option<T>)
      requires Valid()
      modifies Repr
      ensures Valid() && Repr == old(Repr)
      ensures old(Contents) == [] ==> item == None && Contents == []
      ensures old(Contents) != [] ==> item == Some(old(Contents)[0]) && Contents == old(Contents)[1..]
    {
      if head == tail {
        return None;
      }
      item := slots[tail];
      slots[tail] := None;
      StepRound(tail, size);
      tail := (tail + 1) % size;
      Contents := Contents[1..];
    }
  }

  /** The workload of the buffer's unit test: every item of `source` goes
      through a buffer that starts with a single slot, pushes and pops
      interleaved as `doPop` chooses at each step; the items come out in
      the order they went in, and the buffer ends empty. */
  method Workload<T>(source: seq<T>, doPop: nat -> bool) returns (target: seq<T>, remaining: nat)
    ensures target == source
    ensures remaining == 0
  {
    var queue := new CircularBuffer<T>(Some(1));
    target := [];
    var index := 0;
    var step := 0;
    while |target| < |source|
      invariant queue.Valid() && fresh(queue.Repr)
      invariant 0 <= index <= |source|
      invariant target + queue.Contents == source[..index]
      decreases 2 * |source| - index - |target|
    {
      var popNow := doPop(step);
      step := step + 1;
      target, index := Transfer(queue, source, target, index, popNow);
    }
    remaining := queue.Length();
  }

  /** One step of the workload: pop into `target` when asked to and the
      buffer holds something, or when the source is used up; otherwise push
      the next item of `source`. */
  method Transfer<T>(queue: CircularBuffer<T>, source: seq<T>, target: seq<T>, index: nat, popNow: bool)
    returns (target': seq<T>, index': nat)
    requires queue.Valid() && index <= |source| && |target| < |source|
    requires target + queue.Contents == source[..index]
    modifies queue.Repr
    ensures queue.Valid() && fresh(queue.Repr - old(queue.Repr))
    ensures index <= index' <= |source| && |target| <= |target'|
    ensures index + |target| < index' + |target'|
    ensures target' + queue.Contents == source[..index']
  {
    if queue.Length() > 0 && (popNow || index >= |source|) {
      var item := queue.Pop();
      target', index' := target + [item.value], index;
    } else {
      queue.Push(source[index]);
      target', index' := target, index + 1;
    }
  }
}
