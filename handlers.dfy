/** The sample ring channel (`_z_channel_ring_t`): a ring the session's
    callback pushes samples into and the application pulls them from. In a
    single-threaded build the channel is only its ring, so the channel is
    modelled as the ring itself, and a `void *` context that may be null as a
    `RingBuffer?`. */
module Handlers {
  import opened Results
  import opened Ring

  /** `_z_channel_ring_push`: a null element or a null context is ignored;
      otherwise the element goes in by the force-drop push, which never
      rejects it. `freed` is the element handed to `element_free`: the
      oldest one, when the ring was full. */
  method ChannelRingPush<T(0)>(elem: Option<T>, context: RingBuffer?<T>) returns (freed: Option<T>)
    requires context != null ==> context.Valid()
    modifies if context != null then {context, context.buf} else {}
    ensures context != null ==> context.Valid()
    ensures elem.None? || context == null ==> freed == None
    ensures elem.None? && context != null ==> context.Contents() == old(context.Contents())
    ensures elem.Some? && context != null ==>
              && context.Contents() == ForceDropPush(old(context.Contents()), context.buf.Length, elem.value)
              && (freed.Some? <==> |old(context.Contents())| == context.buf.Length)
              && (freed.Some? ==> freed.value == old(context.Contents())[0])
  {
    if elem.None? || context == null {
      return None;
    }
    freed := context.PushForceDrop(elem.value);
  }

  /** `_z_channel_ring_pull`: the oldest element is copied into `dst`; an
      empty ring leaves `dst` as it was. Every path returns `_Z_RES_OK`. */
  method ChannelRingPull<T(0)>(dst: T, context: RingBuffer<T>) returns (r: Status, out: T)
    requires context.Valid()
    modifies context
    ensures context.Valid() && r == OK
    ensures old(context.Contents()) == [] ==> out == dst && context.Contents() == []
    ensures old(context.Contents()) != [] ==>
              out == old(context.Contents())[0] && context.Contents() == old(context.Contents())[1..]
  {
    var src := context.Pull();
    if src.Some? {
      out := src.value;
    } else {
      out := dst;
    }
    r := OK;
  }

  /** How `_z_channel_ring` ends. */
  datatype Construction = ReturnsNull | ReturnsRing | FallsOffEnd

  /** Whether `_z_ring_init` succeeds: the model takes it to need a positive
      capacity and a successful allocation of the slots. */
  predicate RingInitOk(capacity: nat, allocOk: bool) {
    capacity > 0 && allocOk
  }

  /** `_z_channel_ring` as written: a failed ring initialisation returns
      null; a multi-threaded build then initialises the mutex and returns the
      channel, or null when that fails; a single-threaded build reaches the
      closing brace of a function that returns a pointer, so the caller reads
      an undefined value. */
  function ChannelRingAsWritten(capacity: nat, allocOk: bool, multiThread: bool, mutexOk: bool): (c: Construction)
    ensures !RingInitOk(capacity, allocOk) ==> c == ReturnsNull
    ensures c == ReturnsRing <==> RingInitOk(capacity, allocOk) && multiThread && mutexOk
    ensures c == FallsOffEnd <==> RingInitOk(capacity, allocOk) && !multiThread
  {
    if !RingInitOk(capacity, allocOk) then ReturnsNull
    else if multiThread then (if mutexOk then ReturnsRing else ReturnsNull)
    else FallsOffEnd
  }

  /** A single-threaded build never gets its channel back. */
  lemma SingleThreadChannelIsLost(capacity: nat)
    requires capacity > 0
    ensures ChannelRingAsWritten(capacity, true, false, true) == FallsOffEnd
  {
  }

  /** `_z_channel_ring` with the `return ring;` that the single-threaded path
      lacks: a fresh, empty channel of the requested capacity whenever the
      ring (and, multi-threaded, the mutex) can be initialised, null
      otherwise. */
  method ChannelRing<T(0)>(capacity: nat, allocOk: bool, multiThread: bool, mutexOk: bool)
    returns (c: RingBuffer?<T>)
    ensures c != null <==> RingInitOk(capacity, allocOk) && (multiThread ==> mutexOk)
    ensures c != null ==> fresh(c) && fresh(c.buf) && c.Valid() && c.buf.Length == capacity && c.Contents() == []
  {
    if !RingInitOk(capacity, allocOk) {
      return null;
    }
    c := new RingBuffer(capacity);
    if multiThread && !mutexOk {
      return null;
    }
  }
}
