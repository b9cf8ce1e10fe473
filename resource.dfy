/** The two key-expression constructors of the network layer. Both build a
    key that borrows its suffix (the caller keeps the string) and that is not
    mapped by the remote side. */
module Resource {
  import opened Results
  import opened Wire
  import opened Fields

  /** `Z_RESOURCE_ID_NONE`: the id of a key given by its name alone. */
  const RESOURCE_ID_NONE: nat := 0

  /** `_z_rname`: a key expression given by its name. */
  function Rname(rname: Option<Bytes>): (k: KeyExpr)
    ensures k.id == RESOURCE_ID_NONE && k.suffix == rname
    ensures !k.usesRemoteMapping && !k.ownsSuffix
  {
    KeyExpr(RESOURCE_ID_NONE, false, false, rname)
  }

  /** `_z_rid_with_suffix`: a declared resource id with a suffix after it. */
  function RidWithSuffix(rid: nat, suffix: Option<Bytes>): (k: KeyExpr)
    ensures k.id == rid && k.suffix == suffix
    ensures !k.usesRemoteMapping && !k.ownsSuffix
  {
    KeyExpr(rid, false, false, suffix)
  }

  /** A name is the suffix of the "no id" resource. */
  lemma RnameIsNoIdWithSuffix(rname: Option<Bytes>)
    ensures Rname(rname) == RidWithSuffix(RESOURCE_ID_NONE, rname)
  {
  }

  /** A key built by `_z_rid_with_suffix` survives the key-expression codec:
      the id comes back, and with the suffix flag set, the characters of its
      suffix string. */
  lemma RidWithSuffixRoundTrip(rid: nat, suffix: Bytes, rest: Bytes)
    requires IsCStr(suffix)
    ensures var r := KeyexprDecode(KeyexprEncode(true, RidWithSuffix(rid, Some(suffix))) + rest, true);
            r.Ok? && r.value.rest == rest && r.value.value.id == rid
            && StrValue(r.value.value.suffix.value) == StrValue(suffix)
  {
    KeyexprRoundTrip(true, RidWithSuffix(rid, Some(suffix)), rest);
  }

  /** What the key-expression decoder builds is what `_z_rid_with_suffix`
      builds from the decoded id and suffix. */
  lemma DecodedKeyIsRidWithSuffix(s: Bytes, hasSuffix: bool)
    ensures var r := KeyexprDecode(s, hasSuffix);
            r.Ok? ==> r.value.value == RidWithSuffix(r.value.value.id, r.value.value.suffix)
  {
  }
}
