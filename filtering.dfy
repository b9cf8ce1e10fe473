/** The publisher write filter (`_z_write_filter_t`). A publisher registers
    an interest in its key expression; the session answers with interest
    messages, and the filter's context follows them through three states:
    INIT (a client waiting for the current declarations), ACTIVE (nobody
    listens: publications are suppressed) and OFF (a subscriber or queryable
    was declared: publications go out). In OFF the context keeps the id of
    the declaration that switched it off. */
module Filtering {
  import opened Results
  import opened Wire
  import opened SessionTypes

  datatype FilterState = FilterInit | FilterActive | FilterOff

  /** A declaration of a subscriber or a queryable: what switches a filter off. */
  predicate IsDecl(t: byte) {
    t == InterestMsgTypeCode(DeclSubscriber) || t == InterestMsgTypeCode(DeclQueryable)
  }

  /** The matching undeclarations. */
  predicate IsUndecl(t: byte) {
    t == InterestMsgTypeCode(UndeclSubscriber) || t == InterestMsgTypeCode(UndeclQueryable)
  }

  /** How the two allocations of `_z_write_filter_push_decl_id` go: the id
      cell, then the list node. */
  datatype Alloc = AllocOk | IdAllocFails | NodeAllocFails

  /** `_z_write_filter_push_decl_id` on the id list: the id goes to the head
      of the list. A failed node allocation makes the list push return null,
      which replaces the list. */
  function PushedDeclIds(ids: seq<u32>, id: u32, alloc: Alloc): (r: (seq<u32>, bool))
    ensures r.1 <==> alloc == AllocOk
    ensures r.1 ==> r.0 == [id] + ids
    ensures alloc == IdAllocFails ==> r.0 == ids
    ensures alloc == NodeAllocFails ==> r.0 == []
  {
    match alloc
    case AllocOk => ([id] + ids, true)
    case IdAllocFails => (ids, false)
    case NodeAllocFails => ([], false)
  }

  /** `_z_decl_id_list_drop_filter` with `_z_decl_id_eq`: the list without
      its first id equal to `id`. */
  function DropId(ids: seq<u32>, id: u32): (r: seq<u32>)
    ensures id !in ids ==> r == ids
    ensures id in ids ==> |r| == |ids| - 1
    ensures forall x :: x in r ==> x in ids
  {
    if |ids| == 0 then []
    else if ids[0] == id then ids[1..]
    else [ids[0]] + DropId(ids[1..], id)
  }

  /** `_z_write_filter_callback`, as a function of the context's state and
      id list, the message and how allocation goes. */
  function Step(state: FilterState, ids: seq<u32>, msg: InterestMsg, alloc: Alloc): (FilterState, seq<u32>) {
    match state
    case FilterInit =>
      if msg.msgType == InterestMsgTypeCode(Final) then (FilterActive, ids)
      else if IsDecl(msg.msgType) then
        var (ids', ok) := PushedDeclIds(ids, msg.id, alloc);
        (if ok then FilterOff else FilterInit, ids')
      else (FilterInit, ids)
    case FilterActive =>
      if IsDecl(msg.msgType) then
        var (ids', ok) := PushedDeclIds(ids, msg.id, alloc);
        (if ok then FilterOff else FilterActive, ids')
      else (FilterActive, ids)
    case FilterOff =>
      if IsUndecl(msg.msgType) then
        var ids' := DropId(ids, msg.id);
        (if ids' == [] then FilterActive else FilterOff, ids')
      else (FilterOff, ids)
  }

  /** The context invariant: INIT and ACTIVE hold no id; OFF holds exactly one,
      the id of the declaration that switched the filter off. */
  predicate Inv(state: FilterState, ids: seq<u32>) {
    (state != FilterOff ==> ids == []) && (state == FilterOff ==> |ids| == 1)
  }

  /** Every callback keeps the invariant. */
  lemma StepKeepsInv(state: FilterState, ids: seq<u32>, msg: InterestMsg, alloc: Alloc)
    requires Inv(state, ids)
    ensures var (s', ids') := Step(state, ids, msg, alloc); Inv(s', ids')
  {
    if state == FilterOff && IsUndecl(msg.msgType) {
      if ids[0] != msg.id {
        assert DropId(ids, msg.id) == [ids[0]] + DropId(ids[1..], msg.id);
      }
    }
  }

  /** INIT + FINAL: nobody declared anything, the filter becomes active. */
  lemma InitFinalActivates(ids: seq<u32>, id: u32, alloc: Alloc)
    ensures Step(FilterInit, ids, InterestMsg(InterestMsgTypeCode(Final), id), alloc) == (FilterActive, ids)
  {
  }

  /** INIT or ACTIVE + a declaration: the id is recorded and the filter is off;
      when recording fails the state stays. */
  lemma DeclSwitchesOff(state: FilterState, msg: InterestMsg, alloc: Alloc)
    requires state != FilterOff && IsDecl(msg.msgType)
    ensures alloc == AllocOk ==> Step(state, [], msg, alloc) == (FilterOff, [msg.id])
    ensures alloc != AllocOk ==> Step(state, [], msg, alloc) == (state, [])
  {
    assert [msg.id] + [] == [msg.id];
  }

  /** OFF + an undeclaration: the matching id leaves the list, and the filter
      becomes active exactly when the list empties. */
  lemma UndeclOfRecordedId(rec: u32, msg: InterestMsg, alloc: Alloc)
    requires IsUndecl(msg.msgType)
    ensures msg.id == rec ==> Step(FilterOff, [rec], msg, alloc) == (FilterActive, [])
    ensures msg.id != rec ==> Step(FilterOff, [rec], msg, alloc) == (FilterOff, [rec])
  {
    if msg.id != rec {
      assert DropId([rec], msg.id) == [rec] + DropId([], msg.id);
    }
  }

  /** The pairs the callback ignores: ACTIVE + FINAL, OFF + a declaration,
      INIT + an undeclaration, and any message that is neither FINAL nor a
      subscriber or queryable (un)declaration. */
  lemma IgnoredMessages(state: FilterState, ids: seq<u32>, msg: InterestMsg, alloc: Alloc)
    requires || (state == FilterActive && msg.msgType == InterestMsgTypeCode(Final))
             || (state == FilterOff && IsDecl(msg.msgType))
             || (state == FilterInit && IsUndecl(msg.msgType))
             || (msg.msgType != InterestMsgTypeCode(Final) && !IsDecl(msg.msgType) && !IsUndecl(msg.msgType))
    ensures Step(state, ids, msg, alloc) == (state, ids)
  {
  }

  /*------------------ a second declaration while OFF ------------------*/

  /** The ids of the subscribers and queryables still declared after `msgs`,
      starting from those in `live`: a declaration adds its id, an
      undeclaration removes one occurrence of its id. */
  function LiveAfter(live: multiset<u32>, msgs: seq<InterestMsg>): multiset<u32>
    decreases |msgs|
  {
    if |msgs| == 0 then live
    else
      var m := msgs[0];
      var live' := if IsDecl(m.msgType) then live + multiset{m.id}
                   else if IsUndecl(m.msgType) then live - multiset{m.id}
                   else live;
      LiveAfter(live', msgs[1..])
  }

  /** The callback applied to each of `msgs` in turn, every allocation succeeding. */
  function Run(state: FilterState, ids: seq<u32>, msgs: seq<InterestMsg>): (FilterState, seq<u32>)
    decreases |msgs|
  {
    if |msgs| == 0 then (state, ids)
    else
      var (s', ids') := Step(state, ids, msgs[0], AllocOk);
      Run(s', ids', msgs[1..])
  }

  /** As written, a declaration that arrives while the filter is OFF is not
      recorded. Two subscribers declared one after the other and the first
      undeclared leave the filter ACTIVE, suppressing publications although
      the second subscriber is still there. */
  lemma SecondDeclarationIsForgotten()
    ensures var msgs := [InterestMsg(InterestMsgTypeCode(DeclSubscriber), 1),
                         InterestMsg(InterestMsgTypeCode(DeclSubscriber), 2),
                         InterestMsg(InterestMsgTypeCode(UndeclSubscriber), 1)];
            Run(FilterActive, [], msgs) == (FilterActive, [])
            && LiveAfter(multiset{}, msgs) == multiset{2}
  {
    var d1 := InterestMsg(InterestMsgTypeCode(DeclSubscriber), 1);
    var d2 := InterestMsg(InterestMsgTypeCode(DeclSubscriber), 2);
    var u1 := InterestMsg(InterestMsgTypeCode(UndeclSubscriber), 1);
    var msgs := [d1, d2, u1];
    assert IsDecl(d1.msgType) && IsDecl(d2.msgType) && IsUndecl(u1.msgType) && !IsDecl(u1.msgType);
    assert [1 as u32] + [] == [1];
    assert msgs[1..] == [d2, u1] && msgs[1..][1..] == [u1];
    assert Step(FilterActive, [], d1, AllocOk) == (FilterOff, [1]);
    assert Step(FilterOff, [1], d2, AllocOk) == (FilterOff, [1]);
    assert Step(FilterOff, [1], u1, AllocOk) == (FilterActive, []);
    assert LiveAfter(multiset{1, 2}, [u1]) == multiset{2};
  }

  /** The callback recording every declaration, OFF included. Everywhere
      else it is the callback as written. */
  function StepFixed(state: FilterState, ids: seq<u32>, msg: InterestMsg, alloc: Alloc): (r: (FilterState, seq<u32>))
    ensures state != FilterOff || !IsDecl(msg.msgType) ==> r == Step(state, ids, msg, alloc)
    ensures state == FilterOff && IsDecl(msg.msgType) ==> r == (FilterOff, PushedDeclIds(ids, msg.id, alloc).0)
  {
    if state == FilterOff && IsDecl(msg.msgType) then
      var (ids', _) := PushedDeclIds(ids, msg.id, alloc);
      (FilterOff, ids')
    else Step(state, ids, msg, alloc)
  }

  /** `RunFixed` is `Run` with the corrected callback. */
  function RunFixed(state: FilterState, ids: seq<u32>, msgs: seq<InterestMsg>): (FilterState, seq<u32>)
    decreases |msgs|
  {
    if |msgs| == 0 then (state, ids)
    else
      var (s', ids') := StepFixed(state, ids, msgs[0], AllocOk);
      RunFixed(s', ids', msgs[1..])
  }

  /** What the corrected context keeps: it is OFF exactly when it holds ids,
      and the ids it holds are those still declared. */
  predicate Tracks(state: FilterState, ids: seq<u32>, live: multiset<u32>) {
    (state == FilterOff <==> ids != []) && multiset(ids) == live
  }

  /** Dropping an id removes one occurrence of it. */
  lemma {:induction false} DropIdMultiset(ids: seq<u32>, id: u32)
    ensures multiset(DropId(ids, id)) == multiset(ids) - multiset{id}
    decreases |ids|
  {
    if |ids| > 0 {
      assert ids == [ids[0]] + ids[1..];
      if ids[0] != id {
        DropIdMultiset(ids[1..], id);
      }
    }
  }

  /** One corrected callback keeps the context tracking the declarations. */
  lemma StepFixedTracks(state: FilterState, ids: seq<u32>, live: multiset<u32>, msg: InterestMsg)
    requires Tracks(state, ids, live)
    ensures var (s', ids') := StepFixed(state, ids, msg, AllocOk);
            var live' := if IsDecl(msg.msgType) then live + multiset{msg.id}
                         else if IsUndecl(msg.msgType) then live - multiset{msg.id}
                         else live;
            Tracks(s', ids', live')
  {
    if IsUndecl(msg.msgType) {
      DropIdMultiset(ids, msg.id);
    }
  }

  /** Over any sequence of interest messages the corrected context keeps
      tracking the declarations. */
  lemma {:induction false} RunFixedTracks(state: FilterState, ids: seq<u32>, live: multiset<u32>, msgs: seq<InterestMsg>)
    requires Tracks(state, ids, live)
    ensures var (s', ids') := RunFixed(state, ids, msgs); Tracks(s', ids', LiveAfter(live, msgs))
    decreases |msgs|
  {
    if |msgs| > 0 {
      StepFixedTracks(state, ids, live, msgs[0]);
      var (s1, ids1) := StepFixed(state, ids, msgs[0], AllocOk);
      var m := msgs[0];
      var live1 := if IsDecl(m.msgType) then live + multiset{m.id}
                   else if IsUndecl(m.msgType) then live - multiset{m.id}
                   else live;
      RunFixedTracks(s1, ids1, live1, msgs[1..]);
    }
  }

  /** With the fix a new filter is OFF, letting publications out, exactly
      while some subscriber or queryable it heard of is still declared; in
      particular it is never ACTIVE while one is. */
  lemma NoFalseSuppression(isClient: bool, msgs: seq<InterestMsg>)
    ensures var (s', _) := RunFixed(if isClient then FilterInit else FilterActive, [], msgs);
            (s' == FilterOff <==> LiveAfter(multiset{}, msgs) != multiset{})
  {
    RunFixedTracks(if isClient then FilterInit else FilterActive, [], multiset{}, msgs);
  }

  /** `_z_writer_filter_ctx_t` */
  class WriteFilterCtx {
    var state: FilterState
    var declIds: seq<u32>

    /** INIT and ACTIVE hold no id: what both the callback as written and
        the corrected one keep. */
    ghost predicate Valid()
      reads this
    {
      state != FilterOff ==> declIds == []
    }

    /** The stronger invariant `Inv` of the callback as written: OFF also
        holds exactly one id. The corrected callback records every live
        declaration, so it keeps only `Valid`. */
    ghost predicate ValidAsWritten()
      reads this
    {
      Inv(state, declIds)
    }

    /** The context `_z_write_filter_create` allocates: INIT for a client
        session, ACTIVE otherwise, with an empty list. */
    constructor (isClient: bool)
      ensures Valid() && ValidAsWritten()
      ensures state == (if isClient then FilterInit else FilterActive) && declIds == []
    {
      state := if isClient then FilterInit else FilterActive;
      declIds := [];
    }

    /** `_z_write_filter_push_decl_id` */
    method PushDeclId(id: u32, alloc: Alloc) returns (ok: bool)
      modifies this
      ensures (declIds, ok) == PushedDeclIds(old(declIds), id, alloc)
      ensures state == old(state)
    {
      if alloc == IdAllocFails {
        return false;
      }
      if alloc == NodeAllocFails {
        declIds := [];
        return false;
      }
      declIds := [id] + declIds;
      ok := true;
    }

    /** `_z_write_filter_callback` */
    method Callback(msg: InterestMsg, alloc: Alloc)
      requires Valid()
      modifies this
      ensures (state, declIds) == Step(old(state), old(declIds), msg, alloc)
      ensures Valid()
      ensures old(ValidAsWritten()) ==> ValidAsWritten()
    {
      ghost var (state0, ids0) := (state, declIds);
      match state {
        case FilterInit =>
          if msg.msgType == InterestMsgTypeCode(Final) {
            state := FilterActive;
          } else if IsDecl(msg.msgType) {
            var ok := PushDeclId(msg.id, alloc);
            if ok {
              state := FilterOff;
            }
          }
        case FilterActive =>
          if IsDecl(msg.msgType) {
            var ok := PushDeclId(msg.id, alloc);
            if ok {
              state := FilterOff;
            }
          }
        case FilterOff =>
          if IsUndecl(msg.msgType) {
            declIds := DropId(declIds, msg.id);
            if declIds == [] {
              state := FilterActive;
            }
          }
      }
      if Inv(state0, ids0) {
        StepKeepsInv(state0, ids0, msg, alloc);
      }
    }

    /** The corrected callback: a declaration while OFF is recorded too. */
    method CallbackFixed(msg: InterestMsg, alloc: Alloc)
      requires Valid()
      modifies this
      ensures (state, declIds) == StepFixed(old(state), old(declIds), msg, alloc)
      ensures Valid()
    {
      if state == FilterOff && IsDecl(msg.msgType) {
        var _ := PushDeclId(msg.id, alloc);
      } else {
        Callback(msg, alloc);
      }
    }
  }

  /** `_z_write_filter_t`: the context, null when there is none, and the id
      of the interest the filter registered. `ctxFreed` records that `ctx`
      points at a context that has been freed; `removed` logs the interest
      ids handed to `_z_remove_interest`. */
  class WriteFilter {
    var ctx: WriteFilterCtx?
    var interestId: u32
    ghost var ctxFreed: bool
    ghost var removed: seq<u32>

    ghost predicate Valid()
      reads this, ctx
    {
      !ctxFreed && (ctx != null ==> ctx.Valid())
    }

    constructor ()
      ensures Valid() && ctx == null && removed == []
    {
      ctx := null;
      interestId := 0;
      ctxFreed := false;
      removed := [];
    }

    /** `_z_write_filter_create`. `ctxAllocOk` says whether the context can
        be allocated; `added` is what `_z_add_interest` returns for the
        filter's interest, 0 when it could not register it. A failure to
        register frees the context but leaves `ctx` pointing at it. */
    method Create(isClient: bool, ctxAllocOk: bool, added: u32) returns (r: Status)
      modifies this
      ensures !ctxAllocOk ==> r == Err(OutOfMemory) && ctx == old(ctx) && interestId == old(interestId)
                              && ctxFreed == old(ctxFreed)
      ensures ctxAllocOk ==> ctx != null && fresh(ctx) && interestId == added
      ensures ctxAllocOk ==> ctx.state == (if isClient then FilterInit else FilterActive) && ctx.declIds == []
      ensures ctxAllocOk ==> (r.Ok? <==> added != 0) && (r.Err? ==> r.error == Generic)
      ensures ctxAllocOk ==> (ctxFreed <==> added == 0)
      ensures ctxAllocOk && added == 0 ==> ctx != null && !Valid()
      ensures removed == old(removed)
      ensures r.Ok? ==> Valid()
    {
      if !ctxAllocOk {
        return Err(OutOfMemory);
      }
      var c := new WriteFilterCtx(isClient);
      ctx := c;
      interestId := added;
      if interestId == 0 {
        ctxFreed := true;
        return Err(Generic);
      }
      ctxFreed := false;
      r := OK;
    }

    /** `_z_write_filter_create` resetting `ctx` to null when it frees the
        context, so that a failed creation leaves a filter that can still be
        queried and destroyed. */
    method CreateFixed(isClient: bool, ctxAllocOk: bool, added: u32) returns (r: Status)
      modifies this
      ensures !ctxAllocOk ==> r == Err(OutOfMemory) && ctx == old(ctx) && interestId == old(interestId)
                              && ctxFreed == old(ctxFreed)
      ensures ctxAllocOk ==> Valid() && interestId == added && (r.Ok? <==> added != 0)
      ensures ctxAllocOk && added == 0 ==> r == Err(Generic) && ctx == null
      ensures ctxAllocOk && added != 0 ==> ctx != null && fresh(ctx)
      ensures ctxAllocOk && added != 0 ==>
                ctx.state == (if isClient then FilterInit else FilterActive) && ctx.declIds == []
      ensures removed == old(removed)
    {
      if !ctxAllocOk {
        return Err(OutOfMemory);
      }
      var c := new WriteFilterCtx(isClient);
      ctx := c;
      interestId := added;
      ctxFreed := false;
      if interestId == 0 {
        ctx := null;
        return Err(Generic);
      }
      r := OK;
    }

    /** `_z_write_filter_destroy`. `removeResult` is what `_z_remove_interest`
        returns. Destroying a filter without a context does nothing. */
    method Destroy(removeResult: Status) returns (r: Status)
      requires Valid()
      modifies this
      ensures Valid() && ctx == null
      ensures old(ctx) == null ==> r == OK && removed == old(removed)
      ensures old(ctx) != null ==> r == removeResult && removed == old(removed) + [interestId]
      ensures interestId == old(interestId)
    {
      if ctx != null {
        removed := removed + [interestId];
        ctx := null;
        return removeResult;
      }
      r := OK;
    }

    /** `_z_write_filter_active`: publications are suppressed exactly when the
        filter has a context in the ACTIVE state, which then holds no id. */
    predicate Active()
      requires Valid()
      reads this, ctx
      ensures Active() ==> ctx != null && ctx.declIds == []
    {
      ctx != null && ctx.state == FilterActive
    }
  }
}
