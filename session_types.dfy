/** The session records the write filter and the declaration registry work
    with: interest messages and their types, declarations, resources and
    subscriptions. The C header holds only these shapes and the numbering of
    its two enumerations; the numbering is modelled as a code function and its
    inverse. */
module SessionTypes {
  import opened Results
  import opened Wire
  import opened Fields

  /*------------------ interest messages ------------------*/

  /** `_z_interest_msg_type_t` */
  datatype InterestMsgType =
    | Final
    | DeclSubscriber
    | DeclQueryable
    | DeclToken
    | UndeclSubscriber
    | UndeclQueryable
    | UndeclToken
    | ConnectionDropped

  /** The enumerator's value, 0 to 7 in declaration order. */
  function InterestMsgTypeCode(t: InterestMsgType): (c: byte)
    ensures c < 8
    ensures t == Final <==> c == 0
  {
    match t
    case Final => 0
    case DeclSubscriber => 1
    case DeclQueryable => 2
    case DeclToken => 3
    case UndeclSubscriber => 4
    case UndeclQueryable => 5
    case UndeclToken => 6
    case ConnectionDropped => 7
  }

  /** The enumerator a type byte names, if any. */
  function InterestMsgTypeOf(c: byte): (t: Option<InterestMsgType>)
    ensures t.Some? <==> c < 8
    ensures t.Some? ==> InterestMsgTypeCode(t.value) == c
  {
    if c == 0 then Some(Final)
    else if c == 1 then Some(DeclSubscriber)
    else if c == 2 then Some(DeclQueryable)
    else if c == 3 then Some(DeclToken)
    else if c == 4 then Some(UndeclSubscriber)
    else if c == 5 then Some(UndeclQueryable)
    else if c == 6 then Some(UndeclToken)
    else if c == 7 then Some(ConnectionDropped)
    else None
  }

  /** Every enumerator has its own value: reading a code back gives the type. */
  lemma InterestMsgTypeCodeInjective(t: InterestMsgType, u: InterestMsgType)
    ensures InterestMsgTypeOf(InterestMsgTypeCode(t)) == Some(t)
    ensures InterestMsgTypeCode(t) == InterestMsgTypeCode(u) ==> t == u
  {
  }

  /** `_z_interest_msg_t`: the type is kept as the raw byte, so a message can
      carry a value no enumerator has. */
  datatype InterestMsg = InterestMsg(msgType: byte, id: u32)

  /*------------------ declarations ------------------*/

  /** `_z_declare_type_t` */
  datatype DeclareType = DeclareSubscriber | DeclareQueryable | DeclareToken

  /** The enumerator's value, 0 to 2 in declaration order. */
  function DeclareTypeCode(t: DeclareType): (c: byte)
    ensures c < 3
  {
    match t
    case DeclareSubscriber => 0
    case DeclareQueryable => 1
    case DeclareToken => 2
  }

  /** The enumerator a type byte names, if any. */
  function DeclareTypeOf(c: byte): (t: Option<DeclareType>)
    ensures t.Some? <==> c < 3
    ensures t.Some? ==> DeclareTypeCode(t.value) == c
  {
    if c == 0 then Some(DeclareSubscriber)
    else if c == 1 then Some(DeclareQueryable)
    else if c == 2 then Some(DeclareToken)
    else None
  }

  lemma DeclareTypeCodeInjective(t: DeclareType, u: DeclareType)
    ensures DeclareTypeOf(DeclareTypeCode(t)) == Some(t)
    ensures DeclareTypeCode(t) == DeclareTypeCode(u) ==> t == u
  {
  }

  /** `_z_declare_data_t`: the key, the declaration id and the type byte. */
  datatype DeclareData = DeclareData(key: KeyExpr, id: u32, declType: byte)

  /*------------------ registry entries ------------------*/

  /** `_z_resource_t`: a key bound to a 16-bit id, with a 16-bit reference count. */
  datatype Resource = Resource(key: KeyExpr, id: u16, refcount: u16)

  /** `_z_subscription_t`. The callback, the dropper and their argument are C
      function pointers and a `void *`; they are kept as values of the types
      the caller chooses. */
  datatype Subscription<Callback, Dropper, Arg> =
    Subscription(key: KeyExpr, declaredKey: KeyExpr, keyId: u16, id: u32,
                 callback: Callback, dropper: Dropper, arg: Arg)
}
