/** `main` of the mode-switch tool after its option loop: set up the card session,
    SELECT the applet and show its STATUS and DEVICE_CONFIG, read the commit answer,
    write the device configuration, and judge the write by the program sequence
    counter. The PC/SC calls are abstract results passed in; their replies land in the
    in-place reply buffer. */
module ModeSwitch {
  import opened Wrappers
  import opened Device
  import opened Options
  import opened Apdu

  /** What one `SCardTransmit` gave: failure, or the bytes it received. */
  datatype Transmit = TransmitFailed | Received(data: seq<bv8>)

  /** Lines 181-212: establishing the context, sizing and listing the readers, and
      connecting to the card, each succeeding or not. */
  datatype Setup = Setup(contextEstablished: bool, readersSized: bool, readersListed: bool, connected: bool)

  predicate SetupSucceeded(s: Setup) {
    s.contextEstablished && s.readersSized && s.readersListed && s.connected
  }

  /** How the program ends: with an exit code, or in C undefined behaviour. */
  datatype Outcome = Exited(code: int) | UndefinedBehaviour

  /** Lines 232-238: the fields printed from the SELECT reply. */
  datatype Shown = Shown(status: Status, config: Config, mode: bv8, flags: bv8)

  /** Lines 275-277: the pgmSeq printed after the write and whether the update is
      reported "successful". */
  datatype Verdict = Verdict(pgmSeq: bv8, successful: bool)

  /** Everything the program observably does: how it ends, the frames it transmits in
      order, what it shows of the SELECT reply, the commit answer after the trim, and
      the verdict it prints. */
  datatype Trace = Trace(exit: Outcome, sent: seq<seq<bv8>>, shown: Option<Shown>, answer: Option<string>, verdict: Option<Verdict>)

  const COMMIT_BUFFER_SIZE: nat := 256

  // ----- Reply interpretation -----

  function Show(buf: seq<bv8>, k: Constants): (s: Shown)
    requires |buf| >= STATUS_SIZE + CONFIG_SIZE
    ensures (s.status, s.config) == SelectView(buf, k.littleEndian)
    ensures s.mode == s.config.mode & k.modeMask && s.flags == s.config.mode & !k.modeMask
    ensures (s.mode, s.flags) == SplitMode(s.config.mode, k.modeMask)
    ensures s.status.pgmSeq == buf[PGM_SEQ_OFFSET]
  {
    var view := SelectView(buf, k.littleEndian);
    var split := SplitMode(view.1.mode, k.modeMask);
    Shown(view.0, view.1, split.0, split.1)
  }

  /** The Mode and Flags shown together account for every bit of the configured mode
      byte, and no bit is shown in both. */
  lemma ShownModeAndFlags(buf: seq<bv8>, k: Constants)
    requires |buf| >= STATUS_SIZE + CONFIG_SIZE
    ensures Show(buf, k).mode | Show(buf, k).flags == Show(buf, k).config.mode
    ensures Show(buf, k).mode & Show(buf, k).flags == 0
  {
    var s := Show(buf, k);
    var split := SplitMode(s.config.mode, k.modeMask);
    assert (s.mode, s.flags) == split;
  }

  /** Line 276: `pgmSeq == (firstSeq + 1)`, where both bytes are promoted to `int`, so
      the sum does not wrap: a counter that rolls over from 255 to 0 reports failure. */
  function UpdateSucceeded(pgmSeq: bv8, firstSeq: bv8): (ok: bool)
    ensures ok <==> firstSeq != 0xFF && pgmSeq == firstSeq + 1
    ensures firstSeq == 0xFF ==> !ok
  {
    pgmSeq as int == firstSeq as int + 1
  }

  lemma SequenceExamples()
    ensures UpdateSucceeded(6, 5)
    ensures !UpdateSucceeded(5, 5) && !UpdateSucceeded(7, 5)
    ensures !UpdateSucceeded(0, 255)
  {
  }

  // ----- The commit answer -----

  /** `strlen`: the index of the first NUL, or the whole length if there is none. */
  function CStrLen(s: seq<char>): (n: nat)
    ensures n <= |s|
    ensures forall i | 0 <= i < n :: s[i] != '\0'
    ensures n < |s| ==> s[n] == '\0'
  {
    if s == [] || s[0] == '\0' then 0 else 1 + CStrLen(s[1..])
  }

  /** The C string `s` after the trim at lines 251-252: a final newline removed. */
  function TrimmedLine(s: string): (r: string)
    ensures s == r || s == r + ['\n']
    ensures s == r + ['\n'] <==> |s| > 0 && s[|s| - 1] == '\n'
  {
    if |s| > 0 && s[|s| - 1] == '\n' then s[..|s| - 1] else s
  }

  /** Lines 244-252: the answer left in `commitbuf`, as a C string. `line` is what
      `fgets` stored, one character per byte, or None when it failed. None as the result marks undefined
      behaviour: `strlen` of a buffer `fgets` never wrote, or `commitbuf[-1]` read
      for an empty answer. */
  function CommitAnswer(autocommit: bool, line: Option<seq<char>>): (r: Option<string>)
    ensures r.None? <==> !autocommit && (line.None? || CStrLen(line.value) == 0)
    ensures autocommit ==> r == Some("yes")
    ensures !autocommit && r.Some? ==>
              var c := line.value[..CStrLen(line.value)];
              '\0' !in r.value && (c == r.value || c == r.value + ['\n'])
    ensures !autocommit && r.Some? ==>
              var c := line.value[..CStrLen(line.value)];
              c == r.value + ['\n'] <==> |c| > 0 && c[|c| - 1] == '\n'
  {
    if autocommit then Some("yes")
    else if line.None? || CStrLen(line.value) == 0 then None
    else Some(TrimmedLine(line.value[..CStrLen(line.value)]))
  }

  /** Lines 251-252 on the buffer: the character before the terminator at `len` becomes
      NUL if it is a newline; nothing else changes. */
  method TrimNewline(buf: array<char>, len: nat)
    requires 0 < len <= buf.Length
    modifies buf
    ensures buf[..] == if old(buf[len - 1]) == '\n' then old(buf[..])[len - 1 := '\0'] else old(buf[..])
  {
    if buf[len - 1] == '\n' {
      buf[len - 1] := '\0';
    }
  }

  lemma CStrLenAt(s: seq<char>, n: nat)
    requires n < |s| && s[n] == '\0'
    requires forall i | 0 <= i < n :: s[i] != '\0'
    ensures CStrLen(s) == n
  {
  }

  /** Lines 243-252 on `commitbuf`. */
  method ReadCommit(autocommit: bool, line: Option<seq<char>>) returns (answer: Option<string>)
    requires line.Some? ==> |line.value| < COMMIT_BUFFER_SIZE
    ensures answer == CommitAnswer(autocommit, line)
  {
    var commitbuf := new char[COMMIT_BUFFER_SIZE];
    var stored: seq<char>;
    if autocommit {
      stored := "yes";
    } else {
      if line.None? {
        return None;
      }
      stored := line.value;
    }
    forall i | 0 <= i < |stored| {
      commitbuf[i] := stored[i];
    }
    commitbuf[|stored|] := '\0';
    var n := CStrLen(stored);
    assert commitbuf[..][..|stored|] == stored;
    CStrLenAt(commitbuf[..], n);
    var commitlen := CStrLen(commitbuf[..]);
    if commitlen == 0 {
      return None;
    }
    ghost var before := commitbuf[..];
    TrimNewline(commitbuf, commitlen);
    if before[commitlen - 1] == '\n' {
      CStrLenAt(commitbuf[..], commitlen - 1);
      assert commitbuf[..][..commitlen - 1] == stored[..commitlen][..commitlen - 1];
    } else {
      assert commitbuf[..][..commitlen] == stored[..commitlen];
    }
    answer := Some(commitbuf[..CStrLen(commitbuf[..])]);
  }

  // ----- The whole program -----

  predicate ValidInputs(k: Constants, select: Transmit, line: Option<seq<char>>, write: Transmit, stale: seq<bv8>) {
    ValidConstants(k) &&
    |stale| == REPLY_BUFFER_SIZE &&
    (select.Received? ==> |select.data| <= REPLY_BUFFER_SIZE) &&
    (write.Received? ==> |write.data| <= REPLY_BUFFER_SIZE) &&
    (line.Some? ==> |line.value| < COMMIT_BUFFER_SIZE)
  }

  /** The trace of the program from the point where the card is connected. */
  function Exchange(k: Constants, autocommit: bool, select: Transmit, line: Option<seq<char>>,
                    write: Transmit, stale: seq<bv8>): (r: Trace)
    requires ValidInputs(k, select, line, write, stale)
    ensures 1 <= |r.sent| <= 2 && r.sent[0] == Encode(SelectCommand(k.aid))
    ensures r.shown.Some? <==> select.Received?
    ensures r.exit != Exited(1)
    ensures r.verdict.Some? ==> r.exit == Exited(0) && select.Received? && write.Received?
  {
    var selectFrame := Encode(SelectCommand(k.aid));
    var afterSelect := if select.Received? then Overlay(stale, select.data) else stale;
    var shown := if select.Received? then Some(Show(afterSelect, k)) else None;
    var answer := CommitAnswer(autocommit, line);
    if answer.None? then Trace(UndefinedBehaviour, [selectFrame], shown, None, None)
    else
      var sent := [selectFrame, Encode(WriteConfigCommand(k))];
      if write.TransmitFailed? then Trace(Exited(0), sent, shown, answer, None)
      else if select.TransmitFailed? then Trace(UndefinedBehaviour, sent, shown, answer, None)
      else
        var firstSeq := ParseStatus(afterSelect, k.littleEndian).pgmSeq;
        var pgmSeq := ParseStatus(Overlay(afterSelect, write.data), k.littleEndian).pgmSeq;
        Trace(Exited(0), sent, shown, answer, Some(Verdict(pgmSeq, UpdateSucceeded(pgmSeq, firstSeq))))
  }

  /** The trace of the whole program. */
  function Expected(opts: seq<Opt>, k: Constants, setup: Setup, select: Transmit,
                    line: Option<seq<char>>, write: Transmit, stale: seq<bv8>): (r: Trace)
    requires ValidInputs(k, select, line, write, stale)
    ensures r.sent != [] ==> Parse(opts, k.modeMask).Proceed? && SetupSucceeded(setup)
    ensures r.verdict.Some? ==> r.exit == Exited(0)
    ensures r.exit.Exited? ==> 0 <= r.exit.code <= 1
  {
    match Parse(opts, k.modeMask)
    case Exit(code) => Trace(Exited(code), [], None, None, None)
    case Undefined => Trace(UndefinedBehaviour, [], None, None, None)
    case Proceed(settings) =>
      if !SetupSucceeded(setup) then Trace(Exited(1), [], None, None, None)
      else Exchange(k, settings.autocommit, select, line, write, stale)
  }

  /** Lines 214-241: the SELECT exchange. The frame is built in the command buffer;
      when the transmit succeeds, its reply lands at the front of the reply buffer, and
      the records there are shown and `pgmSeq` is kept as `firstSeq`. */
  method SelectApplet(apdu: array<bv8>, rAPDU: array<bv8>, k: Constants, select: Transmit)
    returns (frame: seq<bv8>, shown: Option<Shown>, firstSeq: Option<bv8>)
    requires apdu != rAPDU
    requires apdu.Length == COMMAND_BUFFER_SIZE && rAPDU.Length == REPLY_BUFFER_SIZE
    requires ValidConstants(k) && (select.Received? ==> |select.data| <= REPLY_BUFFER_SIZE)
    modifies apdu, rAPDU
    ensures frame == Encode(SelectCommand(k.aid))
    ensures apdu[..] == Encode(SelectCommand(k.aid)) + old(apdu[..])[|frame|..]
    ensures rAPDU[..] == if select.Received? then Overlay(old(rAPDU[..]), select.data) else old(rAPDU[..])
    ensures shown == if select.Received? then Some(Show(rAPDU[..], k)) else None
    ensures firstSeq == if select.Received? then Some(ParseStatus(rAPDU[..], k.littleEndian).pgmSeq) else None
  {
    var n := BuildSelect(apdu, k.aid);
    frame := apdu[..n];
    shown, firstSeq := None, None;
    if select.Received? {
      Receive(rAPDU, select.data);
      shown := Some(Show(rAPDU[..], k));
      firstSeq := Some(rAPDU[PGM_SEQ_OFFSET]);
    }
  }

  /** Lines 256-279: the configuration write. The frame is built over the SELECT frame
      in the command buffer; when the transmit succeeds, its reply lands in the reply
      buffer and the `pgmSeq` there is returned. */
  method WriteDeviceConfig(apdu: array<bv8>, rAPDU: array<bv8>, k: Constants, write: Transmit)
    returns (frame: seq<bv8>, pgmSeq: Option<bv8>)
    requires apdu != rAPDU
    requires apdu.Length == COMMAND_BUFFER_SIZE && rAPDU.Length == REPLY_BUFFER_SIZE
    requires write.Received? ==> |write.data| <= REPLY_BUFFER_SIZE
    modifies apdu, rAPDU
    ensures frame == Encode(WriteConfigCommand(k))
    ensures apdu[..] == Encode(WriteConfigCommand(k)) + old(apdu[..])[|frame|..]
    ensures rAPDU[..] == if write.Received? then Overlay(old(rAPDU[..]), write.data) else old(rAPDU[..])
    ensures pgmSeq == if write.Received? then Some(ParseStatus(Overlay(old(rAPDU[..]), write.data), k.littleEndian).pgmSeq) else None
  {
    var m := BuildWriteConfig(apdu, k);
    frame := apdu[..m];
    pgmSeq := None;
    if write.Received? {
      Receive(rAPDU, write.data);
      pgmSeq := Some(rAPDU[PGM_SEQ_OFFSET]);
    }
  }

  /** Lines 214-279, once the card is connected: the two exchanges on the in-place
      command and reply buffers. `stale` is what the reply buffer holds before the
      first transmit. */
  method Converse(k: Constants, autocommit: bool, select: Transmit, line: Option<seq<char>>,
                  write: Transmit, stale: seq<bv8>) returns (trace: Trace)
    requires ValidInputs(k, select, line, write, stale)
    ensures trace == Exchange(k, autocommit, select, line, write, stale)
  {
    var apdu := new bv8[COMMAND_BUFFER_SIZE];
    var rAPDU := new bv8[REPLY_BUFFER_SIZE];
    forall i | 0 <= i < REPLY_BUFFER_SIZE {
      rAPDU[i] := stale[i];
    }
    assert rAPDU[..] == stale;

    var selectFrame, shown, firstSeq := SelectApplet(apdu, rAPDU, k, select);
    ghost var afterSelect := rAPDU[..];
    var answer := ReadCommit(autocommit, line);
    if answer.None? {
      return Trace(UndefinedBehaviour, [selectFrame], shown, None, None);
    }

    var writeFrame, pgmSeq := WriteDeviceConfig(apdu, rAPDU, k, write);
    var sent := [selectFrame, writeFrame];
    if pgmSeq.None? {
      return Trace(Exited(0), sent, shown, answer, None);
    }
    if firstSeq.None? {
      return Trace(UndefinedBehaviour, sent, shown, answer, None);
    }
    trace := Trace(Exited(0), sent, shown, answer, Some(Verdict(pgmSeq.value, UpdateSucceeded(pgmSeq.value, firstSeq.value))));
  }

  /** `main`: the option loop, the session set-up, then the exchanges. */
  method RunProgram(opts: seq<Opt>, k: Constants, setup: Setup, select: Transmit,
                    line: Option<seq<char>>, write: Transmit, stale: seq<bv8>) returns (trace: Trace)
    requires ValidInputs(k, select, line, write, stale)
    ensures trace == Expected(opts, k, setup, select, line, write, stale)
  {
    var p := ParseOptions(opts, k.modeMask);
    if p.Exit? {
      return Trace(Exited(p.code), [], None, None, None);
    } else if p.Undefined? {
      return Trace(UndefinedBehaviour, [], None, None, None);
    }
    if !SetupSucceeded(setup) {
      return Trace(Exited(1), [], None, None, None);
    }
    trace := Converse(k, p.settings.autocommit, select, line, write, stale);
  }

  // ----- Properties of the whole program -----

  /** Options the loop does not accept end the program before any transport call: no
      frame is sent and nothing is shown or judged. */
  lemma RejectedOptionsSendNothing(opts: seq<Opt>, k: Constants, setup: Setup, select: Transmit,
                                   line: Option<seq<char>>, write: Transmit, stale: seq<bv8>)
    requires ValidInputs(k, select, line, write, stale)
    requires !Accepted(opts, k.modeMask)
    ensures var t := Expected(opts, k, setup, select, line, write, stale);
            t.sent == [] && t.shown.None? && t.answer.None? && t.verdict.None? &&
            (t.exit == Exited(1) <==> FirstModeRejected(opts, k.modeMask))
  {
    ParseProceeds(opts, k.modeMask);
    ParseExitsOne(opts, k.modeMask);
  }

  /** A failed session set-up exits with 1 before anything is sent. */
  lemma SetupFailureSendsNothing(opts: seq<Opt>, k: Constants, setup: Setup, select: Transmit,
                                 line: Option<seq<char>>, write: Transmit, stale: seq<bv8>)
    requires ValidInputs(k, select, line, write, stale)
    requires Accepted(opts, k.modeMask) && !SetupSucceeded(setup)
    ensures Expected(opts, k, setup, select, line, write, stale) == Trace(Exited(1), [], None, None, None)
  {
    ParseProceeds(opts, k.modeMask);
  }

  /** With accepted options and a session, the SELECT frame goes first; once the
      commit answer is defined, the write frame follows it whatever the answer says and
      whatever mode the options asked for: both frames are fixed by the constants. */
  lemma FramesSent(opts: seq<Opt>, k: Constants, setup: Setup, select: Transmit,
                   line: Option<seq<char>>, write: Transmit, stale: seq<bv8>)
    requires ValidInputs(k, select, line, write, stale)
    requires Accepted(opts, k.modeMask) && SetupSucceeded(setup)
    ensures var t := Expected(opts, k, setup, select, line, write, stale);
            var answer := CommitAnswer(Has(opts, 'y'), line);
            t.answer == answer &&
            (answer.None? ==> t.exit == UndefinedBehaviour && t.sent == [Encode(SelectCommand(k.aid))]) &&
            (answer.Some? ==> t.sent == [Encode(SelectCommand(k.aid)),
                                         [0x00, k.insYk2Req, k.slotDeviceConfig, 0x00, CONFIG_SIZE as bv8,
                                          k.modeOtp, k.defaultChalTimeout, 0x00, 0x00]])
  {
    ParseProceeds(opts, k.modeMask);
    WriteConfigFrameLayout(k);
  }

  /** When both transmits succeed, the update is reported successful exactly when the
      pgmSeq byte in the buffer after the write is one more, as an `int`, than the one
      after the SELECT. Each is the reply's fourth byte if the reply has one and the
      byte the buffer held otherwise, since no received length is checked. */
  lemma VerdictRule(opts: seq<Opt>, k: Constants, setup: Setup, first: seq<bv8>,
                    line: Option<seq<char>>, second: seq<bv8>, stale: seq<bv8>)
    requires ValidInputs(k, Received(first), line, Received(second), stale)
    requires Accepted(opts, k.modeMask) && SetupSucceeded(setup)
    requires CommitAnswer(Has(opts, 'y'), line).Some?
    ensures var t := Expected(opts, k, setup, Received(first), line, Received(second), stale);
            var firstSeq := if |first| > PGM_SEQ_OFFSET then first[PGM_SEQ_OFFSET] else stale[PGM_SEQ_OFFSET];
            var pgmSeq := if |second| > PGM_SEQ_OFFSET then second[PGM_SEQ_OFFSET] else firstSeq;
            t.exit == Exited(0) && t.shown.Some? && t.shown.value.status.pgmSeq == firstSeq &&
            t.verdict == Some(Verdict(pgmSeq, pgmSeq as int == firstSeq as int + 1))
  {
    ParseProceeds(opts, k.modeMask);
    var afterSelect := Overlay(stale, first);
    PgmSeqAfterReply(stale, first, k.littleEndian);
    PgmSeqAfterReply(afterSelect, second, k.littleEndian);
  }

  /** A failed write transmit is printed as such and the program still exits with 0;
      a write after a failed SELECT compares against an uninitialised `firstSeq`. */
  lemma TransmitFailures(opts: seq<Opt>, k: Constants, setup: Setup, select: Transmit,
                         line: Option<seq<char>>, write: Transmit, stale: seq<bv8>)
    requires ValidInputs(k, select, line, write, stale)
    requires Accepted(opts, k.modeMask) && SetupSucceeded(setup)
    requires CommitAnswer(Has(opts, 'y'), line).Some?
    ensures var t := Expected(opts, k, setup, select, line, write, stale);
            (write.TransmitFailed? ==> t.exit == Exited(0) && t.verdict.None?) &&
            (write.Received? && select.TransmitFailed? ==> t.exit == UndefinedBehaviour && t.shown.None?)
  {
    ParseProceeds(opts, k.modeMask);
  }

  /** A SELECT reply with pgmSeq 3 and mode 0x02, the options "-y -m 01", and a write
      reply with pgmSeq 4: the configuration is written and reported successful. */
  lemma EndToEndExample(k: Constants, setup: Setup, first: seq<bv8>, second: seq<bv8>, stale: seq<bv8>)
    requires ValidInputs(k, Received(first), None, Received(second), stale)
    requires k.modeMask > 1 && SetupSucceeded(setup)
    requires |first| >= STATUS_SIZE + CONFIG_SIZE && first[PGM_SEQ_OFFSET] == 3 && first[STATUS_SIZE] == 0x02
    requires |second| >= STATUS_SIZE && second[PGM_SEQ_OFFSET] == 4
    ensures var t := Expected([Opt('y', ""), Opt('m', "01")], k, setup, Received(first), None, Received(second), stale);
            t.exit == Exited(0) && |t.sent| == 2 && t.answer == Some("yes") &&
            t.shown.Some? && t.shown.value.config.mode == 0x02 &&
            t.verdict == Some(Verdict(4, true))
  {
    var opts := [Opt('y', ""), Opt('m', "01")];
    TwoDigitMode(INITIAL.(autocommit := true), '0', '1', k.modeMask);
    assert Parse(opts, k.modeMask).Proceed?;
    var afterSelect := Overlay(stale, first);
    assert afterSelect[STATUS_SIZE..][0] == 0x02;
    PgmSeqAfterReply(stale, first, k.littleEndian);
    PgmSeqAfterReply(afterSelect, second, k.littleEndian);
  }
}
