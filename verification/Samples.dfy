/** Messages of the repository's own tables (cct.nanopb.c:43-47, cct.nanopb.h:31-51, 128-134), byte by
    byte. */
module Samples {
  import opened Wrappers
  import opened Descriptor
  import opened Bits
  import opened Varint
  import opened EncodeSpec
  import opened DecodeSpec
  import opened RoundTrip
  import opened DecodeSafety
  import opened Reencode

  /** gdt_cct_NetworkConnectionInfo_fields: two enums of four bytes behind their has_ flags; the first is
      signed, because NetworkType_NONE is -1. */
  const NETWORK_INFO: seq<Field> := [
    Field(1, Varint, Optional, Static, 4, -4, 4, 0, DefaultValue(Num(-1))),
    Field(2, UVarint, Optional, Static, 4, -4, 4, 0, DefaultValue(Num(0)))
  ]

  /** No network, and the subtype LTE. */
  const OFFLINE: Msg := [Opt(true, Num(-1)), Opt(true, Num(13))]

  lemma {:induction false} MinusOne()
    ensures EncVarint(18446744073709551615) == [255, 255, 255, 255, 255, 255, 255, 255, 255, 1]
  {
    hide EncVarint;
    VarintStep(1);
    VarintStep(255);
    VarintStep(32767);
    VarintStep(4194303);
    VarintStep(536870911);
    VarintStep(68719476735);
    VarintStep(8796093022207);
    VarintStep(1125899906842623);
    VarintStep(144115188075855871);
    VarintStep(18446744073709551615);
  }

  /** The message is one the theorems speak of. */
  lemma {:induction false} OfflineIsFine()
    ensures StaticTable(NETWORK_INFO) && SaneTable(NETWORK_INFO) && LegalTable(NETWORK_INFO)
    ensures Conforms(NETWORK_INFO, OFFLINE) && Encodable(NETWORK_INFO, OFFLINE) && Travels(NETWORK_INFO, OFFLINE)
  {
    forall i | 0 <= i < 2
      ensures StaticRow(NETWORK_INFO[i]) && SaneRow(NETWORK_INFO[i]) && LegalRow(NETWORK_INFO[i])
      ensures ConformsRow(NETWORK_INFO, OFFLINE, i) && EncodableRow(NETWORK_INFO, OFFLINE, i)
      ensures TravelsRow(NETWORK_INFO, OFFLINE, i)
    {
    }
  }

  /** No network is written as a 64-bit minus one. */
  lemma {:induction false} OfflineOnTheWire()
    ensures EncMsg(NETWORK_INFO, OFFLINE) == [8, 255, 255, 255, 255, 255, 255, 255, 255, 255, 1, 16, 13]
  {
    hide EncVarint, BitOr, Shl;
    MinusOne();
    SmallVarints();
    TagKey(0, 1);
    TagKey(0, 2);
    assert EncRow(NETWORK_INFO, OFFLINE, 0) == [8] + [255, 255, 255, 255, 255, 255, 255, 255, 255, 1];
    assert EncRow(NETWORK_INFO, OFFLINE, 1) == [16] + [13];
    assert EncFrom(NETWORK_INFO, OFFLINE, 2) == [];
    assert EncFrom(NETWORK_INFO, OFFLINE, 1) == [16, 13];
  }

  lemma {:induction false} SmallVarints()
    ensures EncVarint(8) == [8] && EncVarint(16) == [16] && EncVarint(13) == [13]
  {
  }

  /** It is read back; and where no bytes come, the network is none and the subtype unknown, which is what
      the members hold by default. */
  lemma {:induction false} OfflineIsRead(was: Msg)
    requires Conforms(NETWORK_INFO, was)
    ensures DecMsg(NETWORK_INFO, Defaults(NETWORK_INFO, was),
                   [8, 255, 255, 255, 255, 255, 255, 255, 255, 255, 1, 16, 13])
         == Some(OFFLINE)
    ensures Defaults(NETWORK_INFO, was) == [Opt(false, Num(-1)), Opt(false, Num(0))]
  {
    hide EncMsg, DecMsg, StaticTable, Conforms, Encodable, Travels;
    OfflineIsFine();
    OfflineOnTheWire();
    var m' := MsgRoundTrip(NETWORK_INFO, OFFLINE, was);
    assert RowEq(NETWORK_INFO, OFFLINE, m', 0) && RowEq(NETWORK_INFO, OFFLINE, m', 1);
    assert m' == [m'[0], m'[1]];
  }
}
