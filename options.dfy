/** The command-line option loop of `main` (NEO_Config.c:139-177): `getopt` with the
    option string "hvym:" yields option characters, and `-m` its argument, and the loop
    folds them into `usb_mode`, `usb_mode_seen`, `verbose` and `autocommit`, or ends the
    program. `getopt` itself is not modelled: its output is the input sequence. */
module Options {
  import opened Bits

  /** A C string: its bytes up to, and not including, its terminating NUL. Each
      character stands for one byte of the `argv` string. */
  type CString = s: string | forall i | 0 <= i < |s| :: s[i] != '\0' && s[i] as int < 0x100

  /** One result of `getopt`: the option character (`'?'` for an unknown option or a
      missing argument) and, for `-m`, `optarg`. */
  datatype Opt = Opt(c: char, arg: CString)

  datatype Settings = Settings(usbMode: nat, usbModeSeen: bool, verbose: bool, autocommit: bool)

  /** How the option loop ends: it runs on with its settings, the program exits with a
      code, or the C code reaches undefined behaviour. */
  datatype ParseResult = Proceed(settings: Settings) | Exit(code: int) | Undefined

  const INITIAL := Settings(0, false, false, false)

  /** `ch - '0'` in C, for characters with non-negative codes. */
  function Digit(ch: char): (r: int)
    ensures 0 <= r <= 9 <==> '0' <= ch <= '9'
  {
    ch as int - '0' as int
  }

  /** A `-m` argument whose handling is defined: `optarg[1]` lies inside the string,
      and a leading digit shifted left by 4 is not negative. */
  predicate DefinedToken(t: string) {
    |t| >= 1 && (|t| >= 2 ==> Digit(t[0]) >= 0)
  }

  /** A `-m` argument that sets `usb_mode_seen`: one or two characters whose last one
      is a digit in [0, MODE_MASK). */
  predicate ModeToken(t: string, mask: bv8) {
    DefinedToken(t) && |t| <= 2 && 0 <= Digit(t[|t| - 1]) < mask as int
  }

  predicate Known(c: char) {
    c == 'm' || c == 'v' || c == 'y'
  }

  /** Lines 141-158: the `-m` case. */
  function ModeOption(s: Settings, t: string, mask: bv8): (r: ParseResult)
    ensures r.Undefined? <==> !DefinedToken(t)
    ensures r.Exit? ==> r.code == 1 && !s.usbModeSeen
    ensures r.Proceed? ==>
              r.settings.usbModeSeen && r.settings.verbose == s.verbose && r.settings.autocommit == s.autocommit
  {
    if |t| == 0 then Undefined
    else if |t| >= 2 && Digit(t[0]) < 0 then Undefined
    else
      var high: nat := if |t| >= 2 then Digit(t[0]) * 16 else s.usbMode;
      var rest := if |t| >= 2 then t[1..] else t;
      var d := Digit(rest[0]);
      var s' := if |rest| == 1 && 0 <= d < mask as int
                then s.(usbMode := Or(high, d), usbModeSeen := true)
                else s.(usbMode := high);
      if s'.usbModeSeen then Proceed(s') else Exit(1)
  }

  /** One pass through the `switch` (lines 140-170). */
  function ApplyOption(s: Settings, o: Opt, mask: bv8): (r: ParseResult)
    ensures r == Exit(0) <==> !Known(o.c)
    ensures r.Proceed? ==>
              (s.usbModeSeen ==> r.settings.usbModeSeen) &&
              r.settings.verbose == (s.verbose || o.c == 'v') &&
              r.settings.autocommit == (s.autocommit || o.c == 'y')
  {
    if o.c == 'm' then ModeOption(s, o.arg, mask)
    else if o.c == 'v' then Proceed(s.(verbose := true))
    else if o.c == 'y' then Proceed(s.(autocommit := true))
    else Exit(0)
  }

  /** The `while` loop from settings `s` over the remaining options. */
  function RunOptions(s: Settings, opts: seq<Opt>, mask: bv8): (r: ParseResult)
    ensures r.Exit? ==> r.code == 0 || r.code == 1
    ensures r.Proceed? ==>
              (s.usbModeSeen ==> r.settings.usbModeSeen) &&
              (s.verbose ==> r.settings.verbose) &&
              (s.autocommit ==> r.settings.autocommit)
    decreases |opts|
  {
    if opts == [] then Proceed(s)
    else match ApplyOption(s, opts[0], mask)
      case Proceed(s') => RunOptions(s', opts[1..], mask)
      case other => other
  }

  /** The loop followed by the check at lines 173-177. */
  function Parse(opts: seq<Opt>, mask: bv8): (r: ParseResult)
    ensures r.Exit? ==> r.code == 0 || r.code == 1
    ensures r.Proceed? ==> r.settings.usbModeSeen
  {
    match RunOptions(INITIAL, opts, mask)
    case Proceed(s) => if s.usbModeSeen then Proceed(s) else Exit(0)
    case other => other
  }

  /** The option loop as the program runs it, on local variables. */
  method ParseOptions(opts: seq<Opt>, mask: bv8) returns (r: ParseResult)
    ensures r == Parse(opts, mask)
  {
    var usbMode: nat, usbModeSeen, verbose, autocommit := 0, false, false, false;
    var i := 0;
    while i < |opts|
      invariant 0 <= i <= |opts|
      invariant RunOptions(INITIAL, opts, mask)
             == RunOptions(Settings(usbMode, usbModeSeen, verbose, autocommit), opts[i..], mask)
    {
      assert opts[i..][1..] == opts[i + 1..];
      var o := opts[i];
      if o.c == 'm' {
        var optarg: string := o.arg;
        if |optarg| == 0 {
          return Undefined;
        }
        if |optarg| >= 2 {
          if Digit(optarg[0]) < 0 {
            return Undefined;
          }
          usbMode := Digit(optarg[0]) * 16;
          optarg := optarg[1..];
        }
        if |optarg| == 1 {
          var mode := Digit(optarg[0]);
          if 0 <= mode < mask as int {
            usbMode := Or(usbMode, mode);
            usbModeSeen := true;
          }
        }
        if !usbModeSeen {
          return Exit(1);
        }
      } else if o.c == 'v' {
        verbose := true;
      } else if o.c == 'y' {
        autocommit := true;
      } else {
        return Exit(0);
      }
      i := i + 1;
    }
    if !usbModeSeen {
      return Exit(0);
    }
    r := Proceed(Settings(usbMode, usbModeSeen, verbose, autocommit));
  }

  // ----- One `-m` argument -----

  /** A two-character argument "xy" with `y - '0'` in [0, MODE_MASK) gives
      `usb_mode = (x - '0') << 4 | (y - '0')`. For decimal digits `x` and `y` that is
      "xy" read as a hexadecimal byte; for other characters it is not (`"A1"` gives 273). */
  lemma TwoDigitMode(s: Settings, x: char, y: char, mask: bv8)
    requires Digit(x) >= 0 && 0 <= Digit(y) < mask as int && Digit(y) < 16
    ensures ModeOption(s, [x, y], mask)
         == Proceed(s.(usbMode := Digit(x) * 16 + Digit(y), usbModeSeen := true))
  {
    NibbleOr(Digit(x), Digit(y));
  }

  /** Any two-character argument "xy" with `y - '0'` in [0, MODE_MASK) sets exactly the
      bits of `(x - '0') << 4` and of `y - '0'`, whatever `usb_mode` held. */
  lemma TwoCharMode(s: Settings, x: char, y: char, mask: bv8)
    requires Digit(x) >= 0 && 0 <= Digit(y) < mask as int
    ensures ModeOption(s, [x, y], mask).Proceed?
    ensures var s' := ModeOption(s, [x, y], mask).settings;
            s'.usbModeSeen && s'.verbose == s.verbose && s'.autocommit == s.autocommit &&
            forall k: nat :: Bit(s'.usbMode, k) <==> Bit(Digit(x) * 16, k) || Bit(Digit(y), k)
  {
    forall k: nat
      ensures Bit(Or(Digit(x) * 16, Digit(y)), k) <==> Bit(Digit(x) * 16, k) || Bit(Digit(y), k)
    {
      OrBit(Digit(x) * 16, Digit(y), k);
    }
  }

  /** A one-character argument in range is ORed into the previous `usb_mode`: every
      bit set before stays set, and the digit's bits are added. */
  lemma OneDigitMode(s: Settings, d: char, mask: bv8)
    requires 0 <= Digit(d) < mask as int
    ensures ModeOption(s, [d], mask).Proceed?
    ensures var s' := ModeOption(s, [d], mask).settings;
            s'.usbModeSeen && s'.verbose == s.verbose && s'.autocommit == s.autocommit &&
            forall k: nat :: Bit(s'.usbMode, k) <==> Bit(s.usbMode, k) || Bit(Digit(d), k)
  {
    forall k: nat
      ensures Bit(Or(s.usbMode, Digit(d)), k) <==> Bit(s.usbMode, k) || Bit(Digit(d), k)
    {
      OrBit(s.usbMode, Digit(d), k);
    }
  }

  /** A defined argument that is not a mode token (three or more characters, or a last
      character outside [0, MODE_MASK)) leaves `usb_mode_seen` as it was: the loop goes
      on if a mode was seen before and exits with 1 otherwise. An argument of two or more
      characters has still overwritten `usb_mode` with its high nibble. */
  lemma RejectedMode(s: Settings, t: string, mask: bv8)
    requires DefinedToken(t) && !ModeToken(t, mask)
    ensures ModeOption(s, t, mask).Proceed? <==> s.usbModeSeen
    ensures !s.usbModeSeen ==> ModeOption(s, t, mask) == Exit(1)
    ensures s.usbModeSeen ==> var s' := ModeOption(s, t, mask).settings;
            s'.usbModeSeen && s'.verbose == s.verbose && s'.autocommit == s.autocommit
    ensures s.usbModeSeen ==>
              ModeOption(s, t, mask) == Proceed(if |t| >= 2 then s.(usbMode := Digit(t[0]) * 16) else s)
  {
  }

  /** What one option does to the loop, stated without its arithmetic. */
  lemma ApplyOptionFacts(s: Settings, o: Opt, mask: bv8)
    ensures ApplyOption(s, o, mask).Proceed? <==>
            Known(o.c) && (o.c == 'm' ==> DefinedToken(o.arg) && (s.usbModeSeen || ModeToken(o.arg, mask)))
    ensures ApplyOption(s, o, mask) == Exit(1) <==>
            o.c == 'm' && DefinedToken(o.arg) && !ModeToken(o.arg, mask) && !s.usbModeSeen
    ensures ApplyOption(s, o, mask) == Exit(0) <==> !Known(o.c)
    ensures ApplyOption(s, o, mask) == Undefined <==> o.c == 'm' && !DefinedToken(o.arg)
    ensures ApplyOption(s, o, mask).Proceed? ==>
            var s' := ApplyOption(s, o, mask).settings;
            s'.usbModeSeen == (s.usbModeSeen || (o.c == 'm' && ModeToken(o.arg, mask))) &&
            s'.verbose == (s.verbose || o.c == 'v') &&
            s'.autocommit == (s.autocommit || o.c == 'y')
  {
  }

  // ----- The whole loop -----

  /** No option stops the loop once a mode has been seen (or, from `INITIAL`, once
      the first `-m` was a mode token). */
  ghost predicate AllProceed(opts: seq<Opt>) {
    forall i | 0 <= i < |opts| :: Known(opts[i].c) && (opts[i].c == 'm' ==> DefinedToken(opts[i].arg))
  }

  ghost predicate Has(opts: seq<Opt>, c: char) {
    exists i | 0 <= i < |opts| :: opts[i].c == c
  }

  /** There is a `-m` option and the first one is a mode token. */
  ghost predicate FirstModeValid(opts: seq<Opt>, mask: bv8) {
    exists i | 0 <= i < |opts| ::
      opts[i].c == 'm' && ModeToken(opts[i].arg, mask) && forall j | 0 <= j < i :: opts[j].c != 'm'
  }

  /** The first option that is not `-v` or `-y` is a defined `-m` argument that is not
      a mode token. */
  ghost predicate FirstModeRejected(opts: seq<Opt>, mask: bv8) {
    exists i | 0 <= i < |opts| ::
      opts[i].c == 'm' && DefinedToken(opts[i].arg) && !ModeToken(opts[i].arg, mask) &&
      forall j | 0 <= j < i :: opts[j].c == 'v' || opts[j].c == 'y'
  }

  lemma ShiftAll(o: Opt, rest: seq<Opt>)
    ensures AllProceed([o] + rest) <==>
            Known(o.c) && (o.c == 'm' ==> DefinedToken(o.arg)) && AllProceed(rest)
    ensures Has([o] + rest, 'm') <==> o.c == 'm' || Has(rest, 'm')
    ensures Has([o] + rest, 'v') <==> o.c == 'v' || Has(rest, 'v')
    ensures Has([o] + rest, 'y') <==> o.c == 'y' || Has(rest, 'y')
  {
    var opts := [o] + rest;
    assert opts[0] == o;
    assert forall i | 0 <= i < |rest| :: opts[i + 1] == rest[i];
    if AllProceed(rest) && Known(o.c) && (o.c == 'm' ==> DefinedToken(o.arg)) {
      forall i | 0 <= i < |opts|
        ensures Known(opts[i].c) && (opts[i].c == 'm' ==> DefinedToken(opts[i].arg))
      {
        if i > 0 {
          assert opts[i] == rest[i - 1];
        }
      }
    }
  }

  lemma ShiftFirstValid(o: Opt, rest: seq<Opt>, mask: bv8)
    ensures o.c != 'm' ==> (FirstModeValid([o] + rest, mask) <==> FirstModeValid(rest, mask))
    ensures o.c == 'm' ==> (FirstModeValid([o] + rest, mask) <==> ModeToken(o.arg, mask))
  {
    var opts := [o] + rest;
    assert opts[0] == o;
    if o.c != 'm' {
      if FirstModeValid(rest, mask) {
        var i :| 0 <= i < |rest| && rest[i].c == 'm' && ModeToken(rest[i].arg, mask) &&
                 forall j | 0 <= j < i :: rest[j].c != 'm';
        assert opts[i + 1] == rest[i];
        forall j | 0 <= j < i + 1 ensures opts[j].c != 'm' {
          if j > 0 {
            assert opts[j] == rest[j - 1];
          }
        }
      }
      if FirstModeValid(opts, mask) {
        var i :| 0 <= i < |opts| && opts[i].c == 'm' && ModeToken(opts[i].arg, mask) &&
                 forall j | 0 <= j < i :: opts[j].c != 'm';
        assert i > 0 && rest[i - 1] == opts[i];
        forall j | 0 <= j < i - 1 ensures rest[j].c != 'm' {
          assert rest[j] == opts[j + 1];
        }
      }
    } else if ModeToken(o.arg, mask) {
      assert opts[0].c == 'm' && ModeToken(opts[0].arg, mask);
    }
  }

  lemma ShiftFirstRejected(o: Opt, rest: seq<Opt>, mask: bv8)
    ensures (o.c == 'v' || o.c == 'y') ==>
            (FirstModeRejected([o] + rest, mask) <==> FirstModeRejected(rest, mask))
    ensures o.c == 'm' ==> (FirstModeRejected([o] + rest, mask) <==> DefinedToken(o.arg) && !ModeToken(o.arg, mask))
    ensures !Known(o.c) ==> !FirstModeRejected([o] + rest, mask)
  {
    var opts := [o] + rest;
    assert opts[0] == o;
    if o.c == 'v' || o.c == 'y' {
      if FirstModeRejected(rest, mask) {
        var i :| 0 <= i < |rest| && rest[i].c == 'm' && DefinedToken(rest[i].arg) &&
                 !ModeToken(rest[i].arg, mask) && forall j | 0 <= j < i :: rest[j].c == 'v' || rest[j].c == 'y';
        assert opts[i + 1] == rest[i];
        forall j | 0 <= j < i + 1 ensures opts[j].c == 'v' || opts[j].c == 'y' {
          if j > 0 {
            assert opts[j] == rest[j - 1];
          }
        }
      }
      if FirstModeRejected(opts, mask) {
        var i :| 0 <= i < |opts| && opts[i].c == 'm' && DefinedToken(opts[i].arg) &&
                 !ModeToken(opts[i].arg, mask) && forall j | 0 <= j < i :: opts[j].c == 'v' || opts[j].c == 'y';
        assert i > 0 && rest[i - 1] == opts[i];
        forall j | 0 <= j < i - 1 ensures rest[j].c == 'v' || rest[j].c == 'y' {
          assert rest[j] == opts[j + 1];
        }
      }
    }
    if o.c == 'm' && DefinedToken(o.arg) && !ModeToken(o.arg, mask) {
      assert opts[0].c == 'm';
    }
  }

  /** Once a mode has been seen, the loop runs to its end exactly when every option is
      `-m` with a defined argument, `-v` or `-y`; `verbose` and `autocommit` end up set
      exactly when they were set before or their option occurs. */
  lemma {:induction false} RunAfterMode(s: Settings, opts: seq<Opt>, mask: bv8)
    requires s.usbModeSeen
    ensures RunOptions(s, opts, mask).Proceed? <==> AllProceed(opts)
    ensures RunOptions(s, opts, mask) != Exit(1)
    ensures RunOptions(s, opts, mask).Proceed? ==>
            var s' := RunOptions(s, opts, mask).settings;
            s'.usbModeSeen &&
            s'.verbose == (s.verbose || Has(opts, 'v')) &&
            s'.autocommit == (s.autocommit || Has(opts, 'y'))
    decreases |opts|
  {
    if opts != [] {
      var o, rest := opts[0], opts[1..];
      assert opts == [o] + rest;
      ShiftAll(o, rest);
      ShiftFirstValid(o, rest, mask);
      ShiftFirstRejected(o, rest, mask);
      ApplyOptionFacts(s, o, mask);
      if ApplyOption(s, o, mask).Proceed? {
        RunAfterMode(ApplyOption(s, o, mask).settings, rest, mask);
      }
    }
  }

  /** Before any mode has been seen, the loop runs to its end exactly when every option
      is `-m` with a defined argument, `-v` or `-y` and there is either no `-m` or the
      first `-m` is a mode token; it exits with 1 exactly when the first option other
      than `-v` and `-y` is a rejected `-m`. */
  lemma {:induction false} RunBeforeMode(s: Settings, opts: seq<Opt>, mask: bv8)
    requires !s.usbModeSeen
    ensures RunOptions(s, opts, mask).Proceed? <==>
            AllProceed(opts) && (!Has(opts, 'm') || FirstModeValid(opts, mask))
    ensures RunOptions(s, opts, mask) == Exit(1) <==> FirstModeRejected(opts, mask)
    ensures RunOptions(s, opts, mask).Proceed? ==>
            var s' := RunOptions(s, opts, mask).settings;
            s'.usbModeSeen == Has(opts, 'm') &&
            s'.verbose == (s.verbose || Has(opts, 'v')) &&
            s'.autocommit == (s.autocommit || Has(opts, 'y'))
    decreases |opts|
  {
    if opts != [] {
      var o, rest := opts[0], opts[1..];
      assert opts == [o] + rest;
      ShiftAll(o, rest);
      ShiftFirstValid(o, rest, mask);
      ShiftFirstRejected(o, rest, mask);
      ApplyOptionFacts(s, o, mask);
      if ApplyOption(s, o, mask).Proceed? {
        var s' := ApplyOption(s, o, mask).settings;
        if s'.usbModeSeen {
          RunAfterMode(s', rest, mask);
        } else {
          RunBeforeMode(s', rest, mask);
        }
      }
    }
  }

  /** The options are accepted: every one is `-m` with a defined argument, `-v` or
      `-y`, and the first `-m` carries a mode token. */
  ghost predicate Accepted(opts: seq<Opt>, mask: bv8) {
    AllProceed(opts) && FirstModeValid(opts, mask)
  }

  /** The program gets past the option handling exactly when the options are accepted,
      and then a mode has been seen and `verbose` and `autocommit` record whether `-v`
      and `-y` occurred. */
  lemma ParseProceeds(opts: seq<Opt>, mask: bv8)
    ensures Parse(opts, mask).Proceed? <==> Accepted(opts, mask)
    ensures Parse(opts, mask).Proceed? ==>
            var s := Parse(opts, mask).settings;
            s.usbModeSeen && s.verbose == Has(opts, 'v') && s.autocommit == Has(opts, 'y')
  {
    RunBeforeMode(INITIAL, opts, mask);
    if FirstModeValid(opts, mask) {
      var i :| 0 <= i < |opts| && opts[i].c == 'm' && ModeToken(opts[i].arg, mask) &&
               forall j | 0 <= j < i :: opts[j].c != 'm';
      assert Has(opts, 'm');
    }
  }

  /** The program exits with 1 ("Invalid USB operation mode") exactly when the first
      option other than `-v` and `-y` is a `-m` whose argument is defined but not a mode
      token. */
  lemma ParseExitsOne(opts: seq<Opt>, mask: bv8)
    ensures Parse(opts, mask) == Exit(1) <==> FirstModeRejected(opts, mask)
  {
    RunBeforeMode(INITIAL, opts, mask);
  }

  /** Options without any `-m` (including none at all) print the usage and exit with 0. */
  lemma NoModeExitsZero(opts: seq<Opt>, mask: bv8)
    requires forall i | 0 <= i < |opts| :: opts[i].c == 'v' || opts[i].c == 'y'
    ensures Parse(opts, mask) == Exit(0)
  {
    RunBeforeMode(INITIAL, opts, mask);
  }

  lemma {:induction false} RunAppend(s: Settings, a: seq<Opt>, b: seq<Opt>, mask: bv8)
    ensures RunOptions(s, a + b, mask) ==
            match RunOptions(s, a, mask)
            case Proceed(s') => RunOptions(s', b, mask)
            case other => other
    decreases |a|
  {
    if a != [] {
      assert (a + b)[0] == a[0];
      assert (a + b)[1..] == a[1..] + b;
      match ApplyOption(s, a[0], mask)
      case Proceed(s') => RunAppend(s', a[1..], b, mask);
      case _ =>
    } else {
      assert a + b == b;
    }
  }

  /** `-h`, or any option `getopt` does not know, reached by the loop prints the usage
      and exits with 0, whatever follows it. */
  lemma HelpExitsZero(before: seq<Opt>, o: Opt, after: seq<Opt>, mask: bv8)
    requires RunOptions(INITIAL, before, mask).Proceed?
    requires !Known(o.c)
    ensures Parse(before + [o] + after, mask) == Exit(0)
  {
    assert before + [o] + after == before + ([o] + after);
    RunAppend(INITIAL, before, [o] + after, mask);
    assert ([o] + after)[0] == o;
  }

  /** An empty `-m ""` reached by the loop makes the C code read past the end of
      `optarg`. */
  lemma EmptyModeUndefined(before: seq<Opt>, after: seq<Opt>, mask: bv8)
    requires RunOptions(INITIAL, before, mask).Proceed?
    ensures Parse(before + [Opt('m', "")] + after, mask) == Undefined
  {
    assert before + [Opt('m', "")] + after == before + ([Opt('m', "")] + after);
    RunAppend(INITIAL, before, [Opt('m', "")] + after, mask);
    assert ([Opt('m', "")] + after)[0] == Opt('m', "");
  }

  // ----- The usage text's examples (modes 0, 1 and 2 are legal, so MODE_MASK > 2) -----

  lemma EjectFlagExample(mask: bv8)
    requires mask > 2
    ensures Parse([Opt('m', "81")], mask) == Proceed(Settings(0x81, true, false, false))
  {
    TwoDigitMode(INITIAL, '8', '1', mask);
  }

  lemma CompositeExample(mask: bv8)
    requires mask > 2
    ensures Parse([Opt('y', ""), Opt('m', "2")], mask) == Proceed(Settings(2, true, false, true))
  {
  }

  lemma OutOfRangeExample(mask: bv8)
    requires mask <= 9
    ensures Parse([Opt('m', "9")], mask) == Exit(1)
  {
  }

  /** A later single digit is ORed into the mode a two-digit token set: "81" then "2"
      leaves `usb_mode` at 0x83. */
  lemma RepeatedModeExample(mask: bv8)
    requires mask > 2
    ensures Parse([Opt('m', "81"), Opt('m', "2")], mask) == Proceed(Settings(0x83, true, false, false))
  {
    TwoDigitMode(INITIAL, '8', '1', mask);
    assert Or(0x81, 2) == 0x83;
  }

  /** The argument is read byte by byte: "é" in UTF-8 is the two bytes C3 A9, so it
      takes the two-character path, and `0xA9 - '0'` = 121 is a mode below a mask of
      0x7F. */
  lemma Utf8ModeExample()
    ensures Parse([Opt('m', ['\U{C3}', '\U{A9}'])], 0x7F).Proceed?
  {
  }

  /** A rejected two-character token still overwrites `usb_mode` with its high nibble:
      with MODE_MASK 3, "81" then "89" leaves 0x80. */
  lemma OverwrittenModeExample()
    ensures Parse([Opt('m', "81"), Opt('m', "89")], 3) == Proceed(Settings(0x80, true, false, false))
  {
    TwoDigitMode(INITIAL, '8', '1', 3);
    RejectedMode(Settings(0x81, true, false, false), "89", 3);
  }
}
