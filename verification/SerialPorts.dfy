/** The two parsers and encoders of the serial format as their classes run them. */
module SerialPorts {
  import opened Common
  import opened Bytes
  import SF = SerialFrames

  const BOARD_LIMIT: nat := 252
  const COMM_LIMIT: nat := 250
  const MAX_ARGS_SIZE: nat := 250

  datatype PacketState = START1 | START2 | ID | LENGTH | CMD | DATA | CHECKSUM

  /** `Board` of the ROS SDK: `buf_write` and the receive loop. */
  class Board {
    var state: PacketState
    var frame: bytes
    var dataLen: int
    var recvCount: nat
    var dispatched: seq<SF.Packet>

    constructor ()
      ensures Valid() && Parser() == SF.Hunt && dispatched == []
    {
      state, frame, dataLen, recvCount, dispatched := START1, [], 0, 0, [];
    }

    predicate Valid()
      reads this
    {
      match state
      case LENGTH => |frame| == 1
      case CMD => |frame| == 2 && 2 <= frame[1] <= BOARD_LIMIT && dataLen == frame[1] - 2
      case DATA =>
        |frame| == 3 + recvCount && recvCount < dataLen && frame[1] <= BOARD_LIMIT && dataLen == frame[1] as int - 2
      case CHECKSUM => 3 <= |frame| && |frame| - 1 == frame[1] <= BOARD_LIMIT
      case _ => true
    }

    function Parser(): (p: SF.Parser)
      requires Valid()
      reads this
      ensures p.Ok(BOARD_LIMIT)
    {
      match state
      case START1 => SF.Hunt
      case START2 => SF.Sync
      case ID => SF.Id
      case LENGTH => SF.Length(frame[0])
      case CMD => SF.Command(frame[0], frame[1])
      case DATA => SF.Data(frame)
      case CHECKSUM => SF.Check(frame)
    }

    /** `buf_write` puts the encoded packet on the wire. */
    method BufWrite(targetId: byte, cmd: byte, data: bytes) returns (buf: bytes)
      requires |data| <= 253
      ensures buf == SF.Encode(SF.Packet(targetId, cmd, data))
    {
      var length := 2 + |data|;
      buf := [SF.HEADER, SF.HEADER, targetId, length, cmd] + data;
      var checkData := buf[2..];
      assert checkData == SF.Content(SF.Packet(targetId, cmd, data));
      buf := buf + [SF.Checksum(checkData)];
    }

    /** One pass of the receive loop over the bytes a read returned. */
    method Receive(dataBytes: bytes)
      requires Valid()
      modifies this
      ensures Valid()
      ensures var o := SF.Feed(BOARD_LIMIT, old(Parser()), dataBytes);
        Parser() == o.parser && dispatched == old(dispatched) + o.packets
    {
      ghost var p0, d0 := Parser(), dispatched;
      for i := 0 to |dataBytes|
        invariant Valid()
        invariant var o := SF.Feed(BOARD_LIMIT, p0, dataBytes[..i]);
          Parser() == o.parser && dispatched == d0 + o.packets
      {
        SF.FeedAppend(BOARD_LIMIT, p0, dataBytes[..i], [dataBytes[i]]);
        SF.FeedOne(BOARD_LIMIT, Parser(), dataBytes[i]);
        assert dataBytes[..i + 1] == dataBytes[..i] + [dataBytes[i]];
        ReceiveByte(dataBytes[i]);
      }
      assert dataBytes[..|dataBytes|] == dataBytes;
    }

    method ReceiveByte(dat: byte)
      requires Valid()
      modifies this
      ensures Valid()
      ensures var o := SF.Step(BOARD_LIMIT, old(Parser()), dat);
        Parser() == o.parser && dispatched == old(dispatched) + o.packets
    {
      match state
      case START1 =>
        if dat == SF.HEADER {
          state := START2;
        }
      case START2 =>
        state := if dat == SF.HEADER then ID else START1;
      case ID =>
        frame := [dat];
        state := LENGTH;
      case LENGTH =>
        frame := frame + [dat];
        dataLen := dat - 2;
        state := if dataLen < 0 || dataLen > 250 then START1 else CMD;
      case CMD =>
        frame := frame + [dat];
        recvCount := 0;
        state := if dataLen > 0 then DATA else CHECKSUM;
      case DATA =>
        frame := frame + [dat];
        recvCount := recvCount + 1;
        if recvCount >= dataLen {
          state := CHECKSUM;
        }
      case CHECKSUM =>
        if SF.Checksum(frame) == dat {
          dispatched := dispatched + [SF.Packet(frame[0], frame[2], frame[3..])];
        }
        state := START1;
    }
  }

  /** `CommProtocol_t` of the ESP32: `parsing` with its in-place packet, and `tx_packet_complete`. */
  class CommProtocol {
    var state: PacketState
    var id: byte
    var length: byte
    var cmd: byte
    const args: array<byte>
    var argCount: nat
    var received: seq<SF.Packet>

    constructor ()
      ensures Valid() && Parser() == SF.Hunt && received == [] && fresh(args)
    {
      state, id, length, cmd, argCount, received := START1, 0, 0, 0, 0, [];
      args := new byte[MAX_ARGS_SIZE](_ => 0);
    }

    predicate Valid()
      reads this
    {
      && args.Length == MAX_ARGS_SIZE
      && match state
        case CMD => 2 <= length <= COMM_LIMIT
        case DATA => length <= COMM_LIMIT && argCount < length as int - 2
        case CHECKSUM => 2 <= length <= COMM_LIMIT && argCount == length as int - 2
        case _ => true
    }

    /** The raw bytes of the packet received so far, `data_raw`. */
    function Raw(): bytes
      requires argCount <= args.Length
      reads this, args
    {
      [id, length, cmd] + args[..argCount]
    }

    function Parser(): (p: SF.Parser)
      requires Valid()
      reads this, args
      ensures p.Ok(COMM_LIMIT)
    {
      match state
      case START1 => SF.Hunt
      case START2 => SF.Sync
      case ID => SF.Id
      case LENGTH => SF.Length(id)
      case CMD => SF.Command(id, length)
      case DATA => SF.Data(Raw())
      case CHECKSUM => SF.Check(Raw())
    }

    method Parsing(data: bytes)
      requires Valid()
      modifies this, args
      ensures Valid()
      ensures var o := SF.Feed(COMM_LIMIT, old(Parser()), data);
        Parser() == o.parser && received == old(received) + o.packets
    {
      ghost var p0, r0 := Parser(), received;
      for i := 0 to |data|
        invariant Valid()
        invariant var o := SF.Feed(COMM_LIMIT, p0, data[..i]);
          Parser() == o.parser && received == r0 + o.packets
      {
        SF.FeedAppend(COMM_LIMIT, p0, data[..i], [data[i]]);
        SF.FeedOne(COMM_LIMIT, Parser(), data[i]);
        assert data[..i + 1] == data[..i] + [data[i]];
        ParseByte(data[i]);
      }
      assert data[..|data|] == data;
    }

    method ParseByte(b: byte)
      requires Valid()
      modifies this, args
      ensures Valid()
      ensures var o := SF.Step(COMM_LIMIT, old(Parser()), b);
        Parser() == o.parser && received == old(received) + o.packets
    {
      match state
      case START1 =>
        if b == SF.HEADER {
          state := START2;
        }
      case START2 =>
        state := if b == SF.HEADER then ID else START1;
      case ID =>
        id := b;
        state := LENGTH;
      case LENGTH =>
        length := b;
        state := if 2 <= b <= MAX_ARGS_SIZE then CMD else START1;
      case CMD =>
        cmd := b;
        argCount := 0;
        state := if length == 2 then CHECKSUM else DATA;
      case DATA =>
        ghost var raw := Raw();
        args[argCount] := b;
        argCount := argCount + 1;
        assert Raw() == raw + [b];
        if argCount == length - 2 {
          state := CHECKSUM;
        }
      case CHECKSUM =>
        ghost var raw := Raw();
        if SF.Checksum(Raw()) == b {
          received := received + [SF.Packet(id, cmd, args[..length - 2])];
          assert raw[3..] == args[..length - 2];
        }
        state := START1;
    }

    /**
     * `tx_packet_complete`, for any 8-bit data length: the packet with its check byte, or None if that or the data go
     * past the argument array, and the 8-bit length returned. Both are right exactly up to 249 data bytes.
     */
    method TxPacketComplete(id: byte, cmd: byte, data: bytes) returns (packet: Option<bytes>, frameLen: byte)
      requires |data| < 0x100
      ensures packet == if |data| <= 249 then Some(SF.Encode(SF.Packet(id, cmd, data))) else None
      ensures frameLen == 6 + |data| <==> |data| <= 249
      ensures packet.Some? ==> frameLen == |packet.value|
    {
      frameLen := (6 + |data|) % 0x100;
      var head: bytes := [id, (2 + |data|) % 0x100, cmd];
      var args: bytes := [];
      for i := 0 to |data|
        invariant i <= MAX_ARGS_SIZE && args == data[..i]
      {
        if i >= MAX_ARGS_SIZE {
          return None, frameLen;
        }
        args := args + [data[i]];
        assert data[..i + 1] == data[..i] + [data[i]];
      }
      assert data[..|data|] == data;
      if |data| >= MAX_ARGS_SIZE {
        return None, frameLen;
      }
      packet := Some([SF.HEADER, SF.HEADER] + (head + args) + [SF.Checksum(head + args)]);
    }
  }

  /**
   * The two ends do not agree on the longest frame: of what `buf_write` may send, the board's parser takes
   * everything up to 250 data bytes and the ESP32's takes everything up to 248.
   */
  lemma LongestFrames(p: SF.Packet)
    requires p.Sendable()
    ensures SF.Feed(BOARD_LIMIT, SF.Hunt, SF.Encode(p)).packets == [p] <==> |p.data| <= 250
    ensures SF.Feed(COMM_LIMIT, SF.Hunt, SF.Encode(p)).packets == [p] <==> |p.data| <= 248
  {
    SF.ArrivesIffWithinLimit(BOARD_LIMIT, p);
    SF.ArrivesIffWithinLimit(COMM_LIMIT, p);
  }
}
