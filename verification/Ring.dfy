/** The two queues shared with the kernel, indexed by 32-bit words that wrap. */
module Ring {
  import opened Bytes
  import Probe

  /** Where an index wraps. */
  const WRAP := 0x1_0000_0000

  function Wrapped(n: nat): u32 { n % WRAP }

  /** How far `tail` is past `head`, as subtraction of words gives it. */
  function Apart(tail: u32, head: u32): u32 { if tail >= head then tail - head else tail + WRAP - head }

  /** A word past another. */
  function Onward(at: u32): u32 { if at + 1 == WRAP then 0 else at + 1 }

  /** A queue size that masks: at least one, and dividing the range of an index. */
  ghost predicate Masks(size: nat)
  {
    0 < size < WRAP && exists times: nat :: WRAP == size * times
  }

  /** The slot an index names, which the mask picks out. */
  function Slot(at: nat, size: nat): (i: nat)
    requires 0 < size
    ensures i < size
  {
    at % size
  }

  /** `slots` hold everything of `all` from the `gone`-th on, and the two words say where that begins and ends. */
  ghost predicate Queued<T>(slots: seq<T>, head: u32, tail: u32, all: seq<T>, gone: nat)
  {
    && Masks(|slots|)
    && gone <= |all| <= gone + |slots|
    && head == Wrapped(gone) && tail == Wrapped(|all|)
    && (forall i :: gone <= i < |all| ==> slots[Slot(i, |slots|)] == all[i])
  }

  lemma WrapKeepsSlot(n: nat, size: nat)
    requires Masks(size)
    ensures Slot(Wrapped(n), size) == Slot(n, size)
  {
    var times: nat :| WRAP == size * times;
    Probe.WrapIsHarmless(n, WRAP, size, times);
  }

  lemma WrappedNext(n: nat)
    ensures Onward(Wrapped(n)) == Wrapped(n + 1)
  {
  }

  /** Subtracting the words gives how many are in between, however often each has wrapped. */
  lemma ApartIs(gone: nat, all: nat)
    requires gone <= all < gone + WRAP
    ensures Apart(Wrapped(all), Wrapped(gone)) == all - gone
  {
    var q, r := gone / WRAP, all / WRAP;
    assert gone == WRAP * q + Wrapped(gone) && all == WRAP * r + Wrapped(all);
  }

  /** Indices nearer than the queue is long name different slots. */
  lemma SlotsDiffer(i: nat, j: nat, size: nat)
    requires 0 < size && i < j < i + size
    ensures Slot(i, size) != Slot(j, size)
  {
    Probe.RemaindersDiffer(i, j, size);
  }

  /** Something put at the tail of a queue with room goes in a slot nothing in the queue is in. */
  lemma PutKeeps<T>(slots: seq<T>, head: u32, tail: u32, all: seq<T>, gone: nat, x: T)
    requires Queued(slots, head, tail, all, gone) && |all| < gone + |slots|
    ensures Queued(slots[Slot(tail, |slots|) := x], head, Onward(tail), all + [x], gone)
  {
    hide Slot, Wrapped, Onward, Masks;
    Masked(|slots|);
    WrapKeepsSlot(|all|, |slots|);
    WrappedNext(|all|);
    var now, more := slots[Slot(tail, |slots|) := x], all + [x];
    forall i | gone <= i < |more|
      ensures now[Slot(i, |slots|)] == more[i]
    {
      if i < |all| {
        SlotsDiffer(i, |all|, |slots|);
      }
    }
  }

  lemma Masked(size: nat)
    requires Masks(size)
    ensures 0 < size < WRAP
    ensures forall i: nat :: Slot(i, size) < size
  {
  }

  /** What is at the head of a queue is the oldest thing in it. */
  lemma TakeKeeps<T>(slots: seq<T>, head: u32, tail: u32, all: seq<T>, gone: nat)
    requires Queued(slots, head, tail, all, gone) && gone < |all|
    ensures slots[Slot(head, |slots|)] == all[gone]
    ensures Queued(slots, Onward(head), tail, all, gone + 1)
  {
    hide Slot, Wrapped, Onward, Masks;
    Masked(|slots|);
    WrapKeepsSlot(gone, |slots|);
    WrappedNext(gone);
  }

  /** The words tell how much is in a queue, and are equal only when it is empty. */
  lemma LengthOf<T>(slots: seq<T>, head: u32, tail: u32, all: seq<T>, gone: nat)
    requires Queued(slots, head, tail, all, gone)
    ensures Apart(tail, head) == |all| - gone && (tail == head <==> gone == |all|)
  {
    hide Slot;
    ApartIs(gone, |all|);
  }

  /** What entering the kernel comes to. */
  datatype Entered = Taken(n: nat) | Nothing | Failed

  /** A ring: `S` is a submission and `C` a completion. */
  class Ring<S(0), C(0)> {
    const sqes: array<S>
    const cqes: array<C>
    /** The kernel's words and this side's published ones. */
    var sqHead: u32
    var sqTail: u32
    var cqHead: u32
    var cqTail: u32
    /** This side's own. */
    var tail: u32
    var pending: u32
    /** Every submission ever written, how many are published and how many the kernel has taken; every completion
        ever posted, and how many have been handed over. */
    ghost var written: seq<S>
    ghost var published: nat
    ghost var taken: nat
    ghost var posted: seq<C>
    ghost var reaped: nat

    ghost predicate Valid()
      reads this, sqes, cqes
    {
      && (sqes as object) != cqes
      && Queued(sqes[..], sqHead, tail, written, taken)
      && taken <= published <= |written| && sqTail == Wrapped(published)
      && pending == |written| - taken
      && Queued(cqes[..], cqHead, cqTail, posted, reaped)
    }

    constructor (entries: nat, completions: nat, s: S, c: C)
      requires Masks(entries) && Masks(completions)
      ensures Valid() && fresh(sqes) && fresh(cqes) && sqes.Length == entries && written == [] && posted == []
    {
      hide Masks;
      Masked(entries);
      Masked(completions);
      sqes, cqes := new S[entries](_ => s), new C[completions](_ => c);
      sqHead, sqTail, cqHead, cqTail := 0, 0, 0, 0;
      tail, pending := 0, 0;
      written, published, taken, posted, reaped := [], 0, 0, [], 0;
    }

    /** Write the next submission, unless the ring is full. */
    method Next(sqe: S) returns (ok: bool)
      requires Valid()
      modifies `tail, `pending, `written, sqes
      ensures Valid() && ok == (|old(written)| - taken < sqes.Length)
      ensures written == if ok then old(written) + [sqe] else old(written)
    {
      hide Slot, Wrapped, Masks, Apart, Onward;
      Masked(sqes.Length);
      LengthOf(sqes[..], sqHead, tail, written, taken);
      if Apart(tail, sqHead) >= sqes.Length {
        return false;
      }
      PutKeeps(sqes[..], sqHead, tail, written, taken, sqe);
      var index := Slot(tail, sqes.Length);
      ghost var before := sqes[..];
      sqes[index] := sqe;
      assert sqes[..] == before[index := sqe];
      tail := Onward(tail);
      pending := pending + 1;
      written := written + [sqe];
      return true;
    }

    /** The kernel reads `n` published submissions out of their slots, oldest first, and moves its word past them. */
    method KernelTakes(n: nat) returns (read: seq<S>)
      requires Valid() && taken + n <= published
      modifies `sqHead, `taken
      ensures Queued(sqes[..], sqHead, tail, written, taken) && taken == old(taken) + n
      ensures read == written[old(taken)..taken]
    {
      hide Slot, Wrapped, Masks, Onward;
      Masked(sqes.Length);
      read := [];
      for k := 0 to n
        invariant Queued(sqes[..], sqHead, tail, written, taken) && taken == old(taken) + k
        invariant read == written[old(taken)..taken]
      {
        TakeKeeps(sqes[..], sqHead, tail, written, taken);
        read := read + [sqes[Slot(sqHead, sqes.Length)]];
        sqHead, taken := Onward(sqHead), taken + 1;
      }
    }

    /** Hand everything written to the kernel, which takes some of it from the front and says how much. */
    method SubmitAndWait(want: nat, entered: Entered) returns (ok: bool, read: seq<S>)
      requires Valid() && (entered.Taken? ==> entered.n <= pending)
      modifies `sqTail, `published, `sqHead, `taken, `pending
      ensures Valid() && published == |written|
      ensures taken == old(taken) + if entered.Taken? && !(old(pending) == 0 && want == 0) then entered.n else 0
      ensures taken <= |written| && read == written[old(taken)..taken]
      ensures ok <==> !entered.Failed? || (old(pending) == 0 && want == 0)
    {
      hide Slot, Wrapped, Masks, Onward;
      sqTail, published := tail, |written|;
      if pending == 0 && want == 0 {
        return true, [];
      }
      match entered {
        case Failed => return false, [];
        case Nothing => return true, [];
        case Taken(n) =>
          read := KernelTakes(n);
          pending := if pending > n then pending - n else 0;
          return true, read;
      }
    }

    /** The kernel posts a completion, if this side has let go of a slot for it. */
    method KernelPosts(c: C) returns (ok: bool)
      requires Valid()
      modifies `cqTail, `posted, cqes
      ensures Valid() && (ok <==> |old(posted)| < reaped + cqes.Length)
      ensures posted == if ok then old(posted) + [c] else old(posted)
    {
      hide Slot, Wrapped, Masks, Apart, Onward;
      Masked(cqes.Length);
      LengthOf(cqes[..], cqHead, cqTail, posted, reaped);
      if Apart(cqTail, cqHead) >= cqes.Length {
        return false;
      }
      PutKeeps(cqes[..], cqHead, cqTail, posted, reaped, c);
      var index := Slot(cqTail, cqes.Length);
      ghost var before := cqes[..];
      cqes[index] := c;
      assert cqes[..] == before[index := c];
      cqTail, posted := Onward(cqTail), posted + [c];
      return true;
    }

    /** Take every completion there was on entry, in order, while the kernel goes on posting. */
    method Reap(out: seq<C>, posts: nat -> Option<C>) returns (more: seq<C>)
      requires Valid()
      modifies `cqHead, `cqTail, `posted, `reaped, cqes
      ensures Valid() && old(posted) <= posted && reaped == |old(posted)|
      ensures more == out + posted[old(reaped)..reaped]
    {
      hide Slot, Wrapped, Masks, Apart, Onward;
      Masked(cqes.Length);
      more := out;
      var at, end := cqHead, cqTail;
      ghost var n, last := reaped, |posted|;
      while at != end
        invariant Valid() && old(posted) <= posted && cqHead == old(cqHead)
            && reaped == old(reaped) <= n <= last == |old(posted)|
        invariant at == Wrapped(n) && end == Wrapped(last)
        invariant more == out + posted[reaped..n]
        decreases last - n
      {
        Differ(n, last, at, end);
        WrapKeepsSlot(n, cqes.Length);
        WrappedNext(n);
        assert cqes[..][Slot(n, cqes.Length)] == posted[n];
        more := more + [cqes[Slot(at, cqes.Length)]];
        assert posted[reaped..n + 1] == posted[reaped..n] + [posted[n]];
        at, n := Onward(at), n + 1;
        var c := posts(|more| - |out|);
        if c.Some? {
          ghost var before := posted;
          var did := KernelPosts(c.value);
          assert posted[reaped..n] == before[reaped..n];
        }
      }
      SameWord(n, last, reaped, cqes.Length);
      LetGo(cqes[..], cqHead, cqTail, posted, reaped, last);
      cqHead, reaped := end, last;
    }
  }

  lemma Differ(n: nat, last: nat, at: u32, end: u32)
    requires at == Wrapped(n) && end == Wrapped(last) && at != end && n <= last
    ensures n < last
  {
  }

  lemma SameWord(n: nat, last: nat, from: nat, size: nat)
    requires from <= n <= last <= from + size && size < WRAP && Wrapped(n) == Wrapped(last)
    ensures n == last
  {
    ApartIs(n, last);
  }

  lemma LetGo<T>(slots: seq<T>, head: u32, tail: u32, all: seq<T>, gone: nat, now: nat)
    requires Queued(slots, head, tail, all, gone) && gone <= now <= |all|
    ensures Queued(slots, Wrapped(now), tail, all, now)
  {
    hide Slot, Wrapped, Masks;
  }
}
