/** The encoding constructors of the network layer (`_z_encoding_t`): a
    numeric encoding id and a schema, a byte slice wrapping the caller's C
    string (not copied). */
module Encoding {
  import opened Results
  import opened Wire

  /** `Z_ENCODING_ID_DEFAULT` */
  const ENCODING_ID_DEFAULT: u16 := 0

  datatype Encoding = Encoding(id: u16, schema: Bytes)

  /** `_z_encoding_make`: a null schema gives an empty slice, any other the
      `strlen(schema)` characters before its terminator. */
  function EncodingMake(id: u16, schema: Option<Bytes>): (e: Encoding)
    requires schema.Some? ==> IsCStr(schema.value)
    ensures e.id == id
    ensures schema.None? ==> |e.schema| == 0
    ensures schema.Some? ==> |e.schema| == Strlen(schema.value) && e.schema == schema.value[..|e.schema|]
    ensures NulFree(e.schema)
  {
    if schema.None? then Encoding(id, []) else Encoding(id, StrValue(schema.value))
  }

  /** `_z_encoding_null` */
  function EncodingNull(): (e: Encoding)
    ensures e.id == ENCODING_ID_DEFAULT && e.schema == []
  {
    EncodingMake(ENCODING_ID_DEFAULT, None)
  }

  /** The schema is the whole string whenever the string holds no NUL of its own. */
  lemma EncodingMakeKeepsSchema(id: u16, v: Bytes)
    requires NulFree(v)
    ensures IsCStr(v + [0]) && EncodingMake(id, Some(v + [0])) == Encoding(id, v)
  {
    StrValueOfTerminated(v);
  }

  /** An empty schema string and a null schema make the same encoding: the
      same id and the same (empty) schema contents. The slice is kept as its
      contents, so where its start points is not represented. */
  lemma EmptySchemaIsNull(id: u16)
    ensures IsCStr([0]) && EncodingMake(id, Some([0])) == EncodingMake(id, None)
  {
    assert [0 as byte][0] == 0;
    StrValueOfTerminated([]);
    assert [] + [0] == [0];
  }
}
