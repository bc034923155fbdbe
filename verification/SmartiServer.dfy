/**
  The reply side of the Smart-I daemon: what it appends to a connection's output buffer.
 */
module SmartiServer {
  import opened Words
  import Base64
  import Decimal

  const DATA_FOLLOWS: nat := 301

  /** "%d %s\n" */
  function ResponseLine(code: nat, msg: string): string {
    Decimal.Show(code) + " " + msg + "\n"
  }

  /** The reply to XFER for a non-empty buffer: a status line announcing the text length, the text. */
  function DataReply(data: seq<Byte>): string
    requires data != []
  {
    var text := Base64.Encoded(data);
    ResponseLine(DATA_FOLLOWS, "Data Follows: " + Decimal.Show(U32(|text|))) + text + "\n"
  }

  class Connection {
    var output: string

    constructor ()
      ensures output == ""
    {
      output := "";
    }

    method SendResponse(code: nat, msg: string)
      modifies this
      ensures output == old(output) + ResponseLine(code, msg)
    {
      output := output + ResponseLine(code, msg);
    }

    /** smartid_conn_send_buffer; an empty buffer is logged and nothing is sent. */
    method SendBuffer(data: seq<Byte>)
      requires data != [] ==> Base64.EncodedLength(|data|) < 0x8000_0000
      modifies this
      ensures output == old(output) + if data == [] then "" else DataReply(data)
    {
      hide Base64.Encoded, Decimal.Show;
      if data == [] { return; }
      var text := Base64.Encode(data);
      SendResponse(DATA_FOLLOWS, "Data Follows: " + Decimal.Show(U32(text.Length)));
      output := output + text[..] + "\n";
    }
  }
}
