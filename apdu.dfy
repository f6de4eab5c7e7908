/** The two outbound command frames and the reply buffer of `main`. The command
    buffer is the `apdu` union (a 5-byte header followed by 0x100 data bytes) and the
    reply buffer is the 0x100-byte `rAPDU` union; both are arrays written in place, as
    the program writes them. */
module Apdu {
  import opened Wrappers
  import opened Device

  const HEADER_SIZE: nat := 5
  const DATA_CAPACITY: nat := 0x100
  /** The size of the `apdu` union, whose largest member is APDU_2. */
  const COMMAND_BUFFER_SIZE: nat := HEADER_SIZE + DATA_CAPACITY
  /** The size of the `rAPDU` union, passed to every transmit as the receive capacity. */
  const REPLY_BUFFER_SIZE: nat := 0x100

  /** GlobalPlatform SELECT, by name. */
  const INS_SELECT: bv8 := 0xA4
  const P1_SELECT_BY_NAME: bv8 := 0x04

  /** A command APDU with its header fields and its data; `lc` is derived from the data. */
  datatype Command = Command(cla: bv8, ins: bv8, p1: bv8, p2: bv8, data: seq<bv8>)

  /** `lc` is one byte, so storing a length in it keeps the low eight bits. */
  function Lc(n: nat): (b: bv8)
    ensures n < 256 ==> b as int == n
  {
    (n % 256) as bv8
  }

  /** The bytes of a command as laid out in the `apdu` buffer. */
  function Encode(c: Command): (f: seq<bv8>)
    ensures |f| == HEADER_SIZE + |c.data|
  {
    [c.cla, c.ins, c.p1, c.p2, Lc(|c.data|)] + c.data
  }

  /** Reads a frame back as a command; only frames whose `lc` matches their data
      length are commands. */
  function Decode(f: seq<bv8>): (r: Option<Command>)
    ensures r.Some? <==> |f| >= HEADER_SIZE && f[4] as int == |f| - HEADER_SIZE
  {
    if |f| >= HEADER_SIZE && f[4] as int == |f| - HEADER_SIZE
    then Some(Command(f[0], f[1], f[2], f[3], f[HEADER_SIZE..]))
    else None
  }

  lemma DecodeEncode(c: Command)
    requires |c.data| < 256
    ensures Decode(Encode(c)) == Some(c)
  {
    var f := Encode(c);
    assert f[HEADER_SIZE..] == c.data;
  }

  lemma EncodeDecode(f: seq<bv8>)
    requires Decode(f).Some?
    ensures Encode(Decode(f).value) == f
  {
    var c := Decode(f).value;
    assert Lc(|c.data|) == f[4];
    assert Encode(c) == f[..HEADER_SIZE] + f[HEADER_SIZE..];
  }

  /** Lines 216-221: SELECT by name of the applet whose identifier is `aid`. */
  function SelectCommand(aid: seq<bv8>): (c: Command)
    ensures c.data == aid
    ensures Decode(Encode(c)) == if |aid| < 256 then Some(c) else None
  {
    var c := Command(0x00, INS_SELECT, P1_SELECT_BY_NAME, 0x00, aid);
    assert Encode(c)[HEADER_SIZE..] == aid;
    c
  }

  /** Lines 256-264: the device-configuration write. Its mode is always MODE_OTP, its
      challenge-response timeout DEFAULT_CHAL_TIMEOUT and its eject time 0. */
  function WriteConfigCommand(k: Constants): (c: Command)
    ensures Decode(Encode(c)) == Some(c)
    ensures |c.data| == CONFIG_SIZE
    ensures ParseConfig(c.data, k.littleEndian) == Config(k.modeOtp, k.defaultChalTimeout, 0)
  {
    var config := Config(k.modeOtp, k.defaultChalTimeout, 0);
    var c := Command(0x00, k.insYk2Req, k.slotDeviceConfig, 0x00, ConfigBytes(config, k.littleEndian));
    ConfigRoundTrip(config, k.littleEndian, []);
    assert ConfigBytes(config, k.littleEndian) + [] == c.data;
    DecodeEncode(c);
    c
  }

  lemma SelectFrameLayout(aid: seq<bv8>)
    requires |aid| < 256
    ensures Encode(SelectCommand(aid))[..HEADER_SIZE] == [0x00, 0xA4, 0x04, 0x00, |aid| as bv8]
    ensures Encode(SelectCommand(aid))[HEADER_SIZE..] == aid
    ensures Decode(Encode(SelectCommand(aid))) == Some(SelectCommand(aid))
  {
    DecodeEncode(SelectCommand(aid));
  }

  /** The write frame is nine fixed bytes: it depends on the header constants only, not
      on the byte order, and its data reads back as the configuration it carries. */
  lemma WriteConfigFrameLayout(k: Constants)
    ensures Encode(WriteConfigCommand(k))
         == [0x00, k.insYk2Req, k.slotDeviceConfig, 0x00, CONFIG_SIZE as bv8,
             k.modeOtp, k.defaultChalTimeout, 0x00, 0x00]
    ensures Encode(WriteConfigCommand(k)) == Encode(WriteConfigCommand(k.(littleEndian := !k.littleEndian)))
    ensures ParseConfig(Encode(WriteConfigCommand(k))[HEADER_SIZE..], k.littleEndian)
         == Config(k.modeOtp, k.defaultChalTimeout, 0)
  {
    ZeroConfigBytesOrderFree(k.modeOtp, k.defaultChalTimeout);
    var data := ConfigBytes(Config(k.modeOtp, k.defaultChalTimeout, 0), k.littleEndian);
    assert Encode(WriteConfigCommand(k))[HEADER_SIZE..] == data + [];
    ConfigRoundTrip(Config(k.modeOtp, k.defaultChalTimeout, 0), k.littleEndian, []);
  }

  /** Lines 216-220 and 256-260: the five header fields written one by one. */
  method WriteHeader(apdu: array<bv8>, cla: bv8, ins: bv8, p1: bv8, p2: bv8, lc: bv8)
    requires apdu.Length == COMMAND_BUFFER_SIZE
    modifies apdu
    ensures apdu[..] == [cla, ins, p1, p2, lc] + old(apdu[..])[HEADER_SIZE..]
  {
    apdu[0] := cla;
    apdu[1] := ins;
    apdu[2] := p1;
    apdu[3] := p2;
    apdu[4] := lc;
    assert apdu[..] == [cla, ins, p1, p2, lc] + old(apdu[..])[HEADER_SIZE..];
  }

  /** Copies `bytes` into the data field from offset `at`, as the `memcpy` of the AID
      and the stores through the overlaid DEVICE_CONFIG record do. */
  method WriteData(apdu: array<bv8>, at: nat, bytes: seq<bv8>)
    requires HEADER_SIZE <= at && at + |bytes| <= apdu.Length
    modifies apdu
    ensures apdu[..] == old(apdu[..])[..at] + bytes + old(apdu[..])[at + |bytes|..]
  {
    forall i | 0 <= i < |bytes| {
      apdu[at + i] := bytes[i];
    }
    assert apdu[..] == old(apdu[..])[..at] + bytes + old(apdu[..])[at + |bytes|..];
  }

  /** Lines 216-221 and the length at line 224: the SELECT frame is written into the
      command buffer and `n` bytes of it are transmitted. */
  method BuildSelect(apdu: array<bv8>, aid: seq<bv8>) returns (n: nat)
    requires apdu.Length == COMMAND_BUFFER_SIZE && |aid| <= DATA_CAPACITY
    modifies apdu
    ensures n == HEADER_SIZE + |aid| && n <= apdu.Length
    ensures apdu[..] == Encode(SelectCommand(aid)) + old(apdu[..])[n..]
  {
    WriteHeader(apdu, 0x00, INS_SELECT, P1_SELECT_BY_NAME, 0x00, Lc(|aid|));
    WriteData(apdu, HEADER_SIZE, aid);
    n := HEADER_SIZE + |aid|;
  }

  /** Lines 256-264 and the length at line 267: the write frame overwrites the header
      and, through the overlaid DEVICE_CONFIG record, the first CONFIG_SIZE data bytes;
      the transmitted length is read back from `lc`. The rest of the buffer, including
      any later AID bytes, stays as it was. */
  method BuildWriteConfig(apdu: array<bv8>, k: Constants) returns (n: nat)
    requires apdu.Length == COMMAND_BUFFER_SIZE
    modifies apdu
    ensures n == HEADER_SIZE + CONFIG_SIZE && n <= apdu.Length
    ensures apdu[..] == Encode(WriteConfigCommand(k)) + old(apdu[..])[n..]
  {
    ghost var before := apdu[..];
    var header := [0x00, k.insYk2Req, k.slotDeviceConfig, 0x00, CONFIG_SIZE as bv8];
    WriteHeader(apdu, 0x00, k.insYk2Req, k.slotDeviceConfig, 0x00, CONFIG_SIZE as bv8);
    ghost var afterHeader := apdu[..];
    var record := ConfigBytes(Config(k.modeOtp, k.defaultChalTimeout, 0), k.littleEndian);
    WriteData(apdu, HEADER_SIZE, record);
    assert afterHeader[..HEADER_SIZE] == header;
    assert afterHeader[HEADER_SIZE + CONFIG_SIZE..] == before[HEADER_SIZE + CONFIG_SIZE..];
    assert Encode(WriteConfigCommand(k)) == header + record;
    n := HEADER_SIZE + apdu[4] as int;
  }

  /** The reply buffer after a transmit that received `data`: the received bytes, then
      whatever the buffer held before. */
  function Overlay(buf: seq<bv8>, data: seq<bv8>): (r: seq<bv8>)
    requires |data| <= |buf|
    ensures |r| == |buf|
  {
    data + buf[|data|..]
  }

  /** A successful transmit stores the reply at the front of `rAPDU`. */
  method Receive(buf: array<bv8>, data: seq<bv8>)
    requires buf.Length == REPLY_BUFFER_SIZE && |data| <= REPLY_BUFFER_SIZE
    modifies buf
    ensures buf[..] == Overlay(old(buf[..]), data)
  {
    forall i | 0 <= i < |data| {
      buf[i] := data[i];
    }
    assert buf[..] == data + old(buf[..])[|data|..];
  }

  /** Lines 232-239: the STATUS record and the DEVICE_CONFIG record after it. */
  function SelectView(buf: seq<bv8>, littleEndian: bool): (r: (Status, Config))
    requires |buf| >= STATUS_SIZE + CONFIG_SIZE
    ensures r.0.pgmSeq == buf[PGM_SEQ_OFFSET]
    ensures StatusBytes(r.0, littleEndian) + ConfigBytes(r.1, littleEndian) == buf[..STATUS_SIZE + CONFIG_SIZE]
  {
    assert buf[..STATUS_SIZE + CONFIG_SIZE] == buf[..STATUS_SIZE] + buf[STATUS_SIZE..][..CONFIG_SIZE];
    (ParseStatus(buf, littleEndian), ParseConfig(buf[STATUS_SIZE..], littleEndian))
  }

  /** No received length is checked before pgmSeq is read: a reply of more than
      PGM_SEQ_OFFSET bytes supplies it, a shorter one leaves the byte the buffer held. */
  lemma PgmSeqAfterReply(buf: seq<bv8>, data: seq<bv8>, littleEndian: bool)
    requires |buf| == REPLY_BUFFER_SIZE && |data| <= REPLY_BUFFER_SIZE
    ensures ParseStatus(Overlay(buf, data), littleEndian).pgmSeq
         == if |data| > PGM_SEQ_OFFSET then data[PGM_SEQ_OFFSET] else buf[PGM_SEQ_OFFSET]
  {
  }

  /** A reply long enough for both records is read from its own bytes only: whatever
      follows it, or stood in the buffer before, does not matter. */
  lemma SelectViewOfLongReply(buf: seq<bv8>, data: seq<bv8>, littleEndian: bool)
    requires |buf| == REPLY_BUFFER_SIZE && STATUS_SIZE + CONFIG_SIZE <= |data| <= REPLY_BUFFER_SIZE
    ensures SelectView(Overlay(buf, data), littleEndian) == SelectView(data, littleEndian)
  {
    var b := Overlay(buf, data);
    assert b[..STATUS_SIZE] == data[..STATUS_SIZE];
    assert b[STATUS_SIZE..][..CONFIG_SIZE] == data[STATUS_SIZE..][..CONFIG_SIZE];
    StatusRoundTrip(ParseStatus(data, littleEndian), littleEndian, b[STATUS_SIZE..]);
    StatusRoundTrip(ParseStatus(data, littleEndian), littleEndian, data[STATUS_SIZE..]);
    assert b == b[..STATUS_SIZE] + b[STATUS_SIZE..];
    assert data == data[..STATUS_SIZE] + data[STATUS_SIZE..];
    ConfigRoundTrip(ParseConfig(data[STATUS_SIZE..], littleEndian), littleEndian, b[STATUS_SIZE + CONFIG_SIZE..]);
    ConfigRoundTrip(ParseConfig(data[STATUS_SIZE..], littleEndian), littleEndian, data[STATUS_SIZE + CONFIG_SIZE..]);
    assert b[STATUS_SIZE..] == b[STATUS_SIZE..][..CONFIG_SIZE] + b[STATUS_SIZE + CONFIG_SIZE..];
    assert data[STATUS_SIZE..] == data[STATUS_SIZE..][..CONFIG_SIZE] + data[STATUS_SIZE + CONFIG_SIZE..];
  }
}
