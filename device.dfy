/** The device definitions the program takes from its headers: the applet identifier,
    instruction and slot codes, the mode mask, and the byte layouts of the STATUS and
    DEVICE_CONFIG records. The headers are not part of this model, so their constants
    are one `Constants` value passed to every operation, and the layouts are the
    stated assumption below. */
module Device {

  /** NEO_AID, INS_YK2_REQ, SLOT_DEVICE_CONFIG, MODE_MASK, MODE_OTP and
      DEFAULT_CHAL_TIMEOUT, plus the byte order of the host, which decides how the
      16-bit record fields are laid out in the overlaid buffers. */
  datatype Constants = Constants(
    aid: seq<bv8>,
    insYk2Req: bv8,
    slotDeviceConfig: bv8,
    modeMask: bv8,
    modeOtp: bv8,
    defaultChalTimeout: bv8,
    littleEndian: bool)

  /** The AID is copied into the 0x100-byte data field of the command buffer. */
  predicate ValidConstants(k: Constants) {
    |k.aid| <= 0x100
  }

  /** STATUS: versionMajor, versionMinor, versionBuild, pgmSeq (one byte each) and
      touchLevel (two bytes, host order). */
  datatype Status = Status(versionMajor: bv8, versionMinor: bv8, versionBuild: bv8, pgmSeq: bv8, touchLevel: bv16)

  /** DEVICE_CONFIG: mode and crTimeout (one byte each) and autoEjectTime (two bytes, host order). */
  datatype Config = Config(mode: bv8, crTimeout: bv8, autoEjectTime: bv16)

  const STATUS_SIZE: nat := 6
  const CONFIG_SIZE: nat := 4
  /** Offset of pgmSeq inside STATUS, and so inside every reply buffer. */
  const PGM_SEQ_OFFSET: nat := 3

  function U16Bytes(x: bv16, littleEndian: bool): (r: seq<bv8>)
    ensures |r| == 2
  {
    var lo := (x & 0xFF) as bv8;
    var hi := (x >> 8) as bv8;
    if littleEndian then [lo, hi] else [hi, lo]
  }

  function U16Of(b: seq<bv8>, littleEndian: bool): (x: bv16)
    requires |b| >= 2
    ensures U16Bytes(x, littleEndian) == b[..2]
  {
    var lo := if littleEndian then b[0] else b[1];
    var hi := if littleEndian then b[1] else b[0];
    ((hi as bv16) << 8) | (lo as bv16)
  }

  lemma U16RoundTrip(x: bv16, littleEndian: bool)
    ensures U16Of(U16Bytes(x, littleEndian), littleEndian) == x
  {
    var b := U16Bytes(x, littleEndian);
    var lo := if littleEndian then b[0] else b[1];
    var hi := if littleEndian then b[1] else b[0];
    assert lo as bv16 == x & 0xFF;
    assert hi as bv16 == x >> 8;
  }

  function StatusBytes(s: Status, littleEndian: bool): (r: seq<bv8>)
    ensures |r| == STATUS_SIZE
  {
    [s.versionMajor, s.versionMinor, s.versionBuild, s.pgmSeq] + U16Bytes(s.touchLevel, littleEndian)
  }

  /** The STATUS record overlaid on the first STATUS_SIZE bytes of `b`. */
  function ParseStatus(b: seq<bv8>, littleEndian: bool): (s: Status)
    requires |b| >= STATUS_SIZE
    ensures s.pgmSeq == b[PGM_SEQ_OFFSET]
    ensures StatusBytes(s, littleEndian) == b[..STATUS_SIZE]
  {
    Status(b[0], b[1], b[2], b[3], U16Of(b[4..], littleEndian))
  }

  function ConfigBytes(c: Config, littleEndian: bool): (r: seq<bv8>)
    ensures |r| == CONFIG_SIZE
  {
    [c.mode, c.crTimeout] + U16Bytes(c.autoEjectTime, littleEndian)
  }

  /** The DEVICE_CONFIG record overlaid on the first CONFIG_SIZE bytes of `b`. */
  function ParseConfig(b: seq<bv8>, littleEndian: bool): (c: Config)
    requires |b| >= CONFIG_SIZE
    ensures ConfigBytes(c, littleEndian) == b[..CONFIG_SIZE]
  {
    Config(b[0], b[1], U16Of(b[2..], littleEndian))
  }

  lemma StatusRoundTrip(s: Status, littleEndian: bool, rest: seq<bv8>)
    ensures ParseStatus(StatusBytes(s, littleEndian) + rest, littleEndian) == s
  {
    var b := StatusBytes(s, littleEndian) + rest;
    U16RoundTrip(s.touchLevel, littleEndian);
    assert b[4..][..2] == U16Bytes(s.touchLevel, littleEndian);
  }

  lemma ConfigRoundTrip(c: Config, littleEndian: bool, rest: seq<bv8>)
    ensures ParseConfig(ConfigBytes(c, littleEndian) + rest, littleEndian) == c
  {
    var b := ConfigBytes(c, littleEndian) + rest;
    U16RoundTrip(c.autoEjectTime, littleEndian);
    assert b[2..][..2] == U16Bytes(c.autoEjectTime, littleEndian);
  }

  /** A zero autoEjectTime is laid out the same in either byte order. */
  lemma ZeroConfigBytesOrderFree(mode: bv8, crTimeout: bv8)
    ensures ConfigBytes(Config(mode, crTimeout, 0), true) == ConfigBytes(Config(mode, crTimeout, 0), false)
    ensures ConfigBytes(Config(mode, crTimeout, 0), true) == [mode, crTimeout, 0, 0]
  {
  }

  /** The displayed Mode (`mode & MODE_MASK`) and Flags (`mode & ~MODE_MASK`) of a
      mode byte. The C expressions work on the byte promoted to `int`; with the mask a
      byte and the mode byte's upper bits zero, they equal these byte operations. */
  function SplitMode(m: bv8, mask: bv8): (r: (bv8, bv8))
    ensures r.0 & r.1 == 0
    ensures r.0 | r.1 == m
    ensures r.0 & !mask == 0 && r.1 & mask == 0
  {
    (m & mask, m & !mask)
  }

  /** The split loses nothing: two mode bytes with the same Mode and Flags are equal. */
  lemma SplitModeInjective(m1: bv8, m2: bv8, mask: bv8)
    requires SplitMode(m1, mask) == SplitMode(m2, mask)
    ensures m1 == m2
  {
    assert SplitMode(m1, mask).0 | SplitMode(m1, mask).1 == m1;
    assert SplitMode(m2, mask).0 | SplitMode(m2, mask).1 == m2;
  }
}
