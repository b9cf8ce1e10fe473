/** The bounded ring of the sample channels (`_z_ring_t`, and `_z_ring_mt_t`,
    which in a single-threaded build is exactly that ring). The ring keeps
    its elements in a fixed array with a read index, a write index and a
    length; a push on a full ring first drops the oldest element, so a push
    never fails. The ring's own source is not part of this model: its
    operations are written here as the channel and the `_z_ring_mt_*`
    interface use them. The element callbacks of the C interface
    (`element_free`, `element_copy`, `element_move`) become values: a method
    returns the elements it hands to the free function, and a pull returns
    the element it moves or copies into the destination. */
module Ring {
  import opened Results

  /*------------------ the queue the ring implements ------------------*/

  /** A force-drop push on a queue of capacity `cap`: a full queue loses its
      oldest element, then the new one joins at the back. */
  function ForceDropPush<T>(q: seq<T>, cap: nat, e: T): (r: seq<T>)
    requires 0 < cap && |q| <= cap
    ensures |r| <= cap && |r| > 0 && r[|r| - 1] == e
    ensures |q| < cap ==> |r| == |q| + 1
    ensures |q| == cap ==> |r| == cap
  {
    (if |q| == cap then q[1..] else q) + [e]
  }

  /** Pushes each of `es` in turn. */
  function PushAll<T>(q: seq<T>, cap: nat, es: seq<T>): (r: seq<T>)
    requires 0 < cap && |q| <= cap
    ensures |r| <= cap
    decreases |es|
  {
    if |es| == 0 then q else PushAll(ForceDropPush(q, cap, es[0]), cap, es[1..])
  }

  /** The last `n` elements of `s`, or all of them when there are fewer. */
  function Latest<T>(s: seq<T>, n: nat): (r: seq<T>)
    ensures |r| == if |s| < n then |s| else n
  {
    if |s| <= n then s else s[|s| - n..]
  }

  /** One push keeps the ring holding the latest `cap` elements. */
  lemma ForceDropPushLatest<T>(s: seq<T>, cap: nat, e: T)
    requires 0 < cap
    ensures ForceDropPush(Latest(s, cap), cap, e) == Latest(s + [e], cap)
  {
    if |s| >= cap {
      assert Latest(s, cap)[1..] + [e] == (s + [e])[|s| + 1 - cap..];
    }
  }

  /** Overwrite semantics: whatever was pushed, a ring of capacity `cap`
      holds exactly the latest `cap` elements, oldest first. */
  lemma {:induction false} PushAllKeepsLatest<T>(s: seq<T>, cap: nat, es: seq<T>)
    requires 0 < cap
    ensures PushAll(Latest(s, cap), cap, es) == Latest(s + es, cap)
    decreases |es|
  {
    if |es| > 0 {
      ForceDropPushLatest(s, cap, es[0]);
      PushAllKeepsLatest(s + [es[0]], cap, es[1..]);
      assert s + [es[0]] + es[1..] == s + es;
    } else {
      assert s + es == s;
    }
  }

  /** Pushing `cap + 1` elements into an empty ring leaves the last `cap`. */
  lemma OneTooManyDropsTheFirst<T>(cap: nat, es: seq<T>)
    requires 0 < cap && |es| == cap + 1
    ensures PushAll([], cap, es) == es[1..]
  {
    PushAllKeepsLatest([], cap, es);
    assert [] + es == es;
  }

  /** Below capacity nothing is lost: the ring holds every element pushed,
      in the order pushed, so pulls return them first in, first out. */
  lemma PushAllBelowCapacity<T>(cap: nat, es: seq<T>)
    requires 0 < cap && |es| <= cap
    ensures PushAll([], cap, es) == es
  {
    PushAllKeepsLatest([], cap, es);
    assert [] + es == es;
  }

  /*------------------ the ring ------------------*/

  /** `_z_ring_t` */
  class RingBuffer<T(0)> {
    const buf: array<T>
    var rIdx: nat
    var wIdx: nat
    var len: nat

    /** The slot of the `k`-th element after the read index. */
    function Slot(k: nat): (i: nat)
      requires buf.Length > 0 && rIdx < buf.Length && k < buf.Length
      reads this
      ensures i < buf.Length
    {
      if rIdx + k < buf.Length then rIdx + k else rIdx + k - buf.Length
    }

    ghost predicate Valid()
      reads this
    {
      buf.Length > 0 && rIdx < buf.Length && len <= buf.Length
      && wIdx == (if len == buf.Length then rIdx else Slot(len))
    }

    /** The elements in the ring, oldest first. */
    function Contents(): (q: seq<T>)
      requires Valid()
      reads this, buf
      ensures |q| == len
    {
      seq(len, k requires 0 <= k < len <= buf.Length && rIdx < buf.Length reads this, buf => buf[Slot(k)])
    }

    /** `_z_ring_init`, and `_z_ring_mt_init` / `_z_ring_mt_new`: an empty
        ring whose capacity is fixed by the argument. */
    constructor (capacity: nat)
      requires capacity > 0
      ensures Valid() && fresh(buf) && buf.Length == capacity && Contents() == []
    {
      buf := new T[capacity];
      rIdx, wIdx, len := 0, 0, 0;
    }

    /** The next slot after `i`, wrapping at the capacity. */
    function Next(i: nat): (j: nat)
      requires i < buf.Length
      ensures j < buf.Length
    {
      if i + 1 == buf.Length then 0 else i + 1
    }

    /** `_z_ring_pull`, and `_z_ring_mt_try_pull`: takes the oldest element
        out, if there is one, for the caller to move into its destination. */
    method Pull() returns (r: Option<T>)
      requires Valid()
      modifies this
      ensures Valid()
      ensures old(Contents()) == [] ==> r == None && Contents() == []
      ensures old(Contents()) != [] ==> r == Some(old(Contents())[0]) && Contents() == old(Contents())[1..]
    {
      if len == 0 {
        return None;
      }
      ghost var q := Contents();
      r := Some(buf[rIdx]);
      rIdx := Next(rIdx);
      len := len - 1;
      assert forall k :: 0 <= k < len ==> Slot(k) == old(Slot(k + 1));
      assert Contents() == q[1..];
    }

    /** `_z_ring_push_force_drop`, and `_z_ring_mt_push`: on a full ring the
        oldest element is dropped and handed back (for `element_free`); the
        push itself never fails. */
    method PushForceDrop(e: T) returns (dropped: Option<T>)
      requires Valid()
      modifies this, buf
      ensures Valid()
      ensures Contents() == ForceDropPush(old(Contents()), buf.Length, e)
      ensures dropped.Some? <==> |old(Contents())| == buf.Length
      ensures dropped.Some? ==> dropped.value == old(Contents())[0]
    {
      ghost var q := Contents();
      if len == buf.Length {
        dropped := Pull();
      } else {
        dropped := None;
      }
      ghost var kept := Contents();
      ghost var w := wIdx;
      buf[wIdx] := e;
      wIdx := Next(wIdx);
      len := len + 1;
      forall k | 0 <= k < len - 1
        ensures Contents()[k] == kept[k]
      {
        assert Slot(k) != w;
      }
      assert Contents()[len - 1] == e;
      assert Contents() == kept + [e];
    }

    /** `_z_ring_clear`, and `_z_ring_mt_clear` / `_z_ring_mt_free`: empties
        the ring and hands every element still in it, oldest first, to the
        free function. */
    method Clear() returns (freed: seq<T>)
      requires Valid()
      modifies this
      ensures Valid()
      ensures freed == old(Contents()) && Contents() == []
    {
      freed := Contents();
      rIdx, wIdx, len := 0, 0, 0;
    }
  }
}
