/** Encoding into a buffer and decoding from it, end to end. */
module Codec {
  import opened Wrappers
  import opened Descriptor
  import opened Varint
  import opened EncodeSpec
  import opened DecodeSpec
  import opened RoundTrip
  import opened Encoder
  import opened Decoder
  import O = OStream
  import I = IStream

  /** pb_encode into a buffer that is large enough, then pb_decode of what was written into a structure
      that held `was`: both succeed, the decoder consumes exactly the bytes written, and the message is
      equal. */
  method EncodeThenDecode(fields: seq<Field>, m: Msg, size: nat, was: Msg) returns (ok: bool, left: nat, m': Msg)
    requires StaticTable(fields) && Conforms(fields, m) && Encodable(fields, m) && Travels(fields, m)
    requires |EncMsg(fields, m)| <= size < U64 && Conforms(fields, was)
    ensures ok && left == 0 && MsgEq(fields, m, m')
  {
    hide StaticTable, Conforms, Encodable, Travels, MsgEq, EncMsg, DecMsg, DecLoop, Defaults;
    var buf := new byte[size];
    var output := new O.Stream.OnBuffer(buf, 0, size);
    ok := PbEncode(output, fields, m);
    assert output.buf[0..output.state] == EncMsg(fields, m);
    var input := new I.Stream.FromBuffer(buf[0..output.bytesWritten]);
    ghost var equal := MsgRoundTrip(fields, m, was);
    ok, m' := Decode(input, fields, was);
    left := input.bytesLeft;
  }
}
