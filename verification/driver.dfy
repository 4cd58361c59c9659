/**
 * `main`: a left-to-right pass over `argv` that fills in the options, then a
 * fixed precedence of terminal actions (usage, help, platform list, missing
 * command, generate-and-check).
 */
module Driver {

  import opened Wrappers
  import opened Ascii
  import opened Tokenize
  import opened Generate
  import opened Scan

  /** `Platform`. */
  datatype Platform = Linux | MacOS | FreeBSD | OpenBSD | Solaris | Aix | HpUx | Other

  /** The names `-t` recognises; an unknown name yields `None`. */
  function PlatformNamed(name: string): Option<Platform> {
    if name == "linux" then Some(Linux)
    else if name == "macos" then Some(MacOS)
    else if name == "freebsd" then Some(FreeBSD)
    else if name == "openbsd" then Some(OpenBSD)
    else if name == "solaris" then Some(Solaris)
    else if name == "aix" then Some(Aix)
    else if name == "hpux" then Some(HpUx)
    else None
  }

  /** The name `-t` accepts for each platform; `OTHER` has none. */
  function NameOf(p: Platform): Option<string> {
    match p
    case Linux => Some("linux")
    case MacOS => Some("macos")
    case FreeBSD => Some("freebsd")
    case OpenBSD => Some("openbsd")
    case Solaris => Some("solaris")
    case Aix => Some("aix")
    case HpUx => Some("hpux")
    case Other => None
  }

  /** The `switch (method_choice)`: 1, 2, 3 select a method, anything else falls back to the first letter. */
  function MethodChoice(n: int): (m: AliasMethod)
    ensures 1 <= n <= 3 ==> m.Width() == n
    ensures !(1 <= n <= 3) ==> m == FirstLetter
  {
    if n == 2 then FirstTwoLetters
    else if n == 3 then FirstThreeLetters
    else FirstLetter
  }

  /** The variables `main` sets while parsing. */
  datatype Options = Options(
    how: AliasMethod,
    file: string,
    popular: bool,
    help: bool,
    target: Platform,
    commandStart: nat)

  /** `detected` stands for `detect_platform()`, fixed when the program was built. */
  function Defaults(detected: Platform): Options {
    Options(FirstLetter, ".profile", false, false, detected, 1)
  }

  /**
   * The `for` loop over `argv[i..]`. `atoi` is the C library conversion,
   * taken as a parameter. A flag that needs a value is recognised only when
   * a value follows it.
   */
  function ParseFrom(argv: seq<CString>, i: nat, o: Options, atoi: string -> int): Options
    decreases |argv| - i
  {
    if i >= |argv| then o
    else if argv[i] == "-m" && i + 1 < |argv| then
      ParseFrom(argv, i + 2, o.(how := MethodChoice(atoi(argv[i + 1])), commandStart := o.commandStart + 2), atoi)
    else if argv[i] == "-f" && i + 1 < |argv| then
      ParseFrom(argv, i + 2, o.(file := argv[i + 1], commandStart := o.commandStart + 2), atoi)
    else if argv[i] == "-p" then
      ParseFrom(argv, i + 1, o.(popular := true, commandStart := o.commandStart + 1), atoi)
    else if argv[i] == "-h" then
      ParseFrom(argv, i + 1, o.(help := true, commandStart := o.commandStart + 1), atoi)
    else if argv[i] == "-t" && i + 1 < |argv| then
      var target := match PlatformNamed(argv[i + 1]) case Some(p) => p case None => o.target;
      ParseFrom(argv, i + 2, o.(target := target, commandStart := o.commandStart + 2), atoi)
    else
      ParseFrom(argv, i + 1, o, atoi)
  }

  function Parse(argv: seq<CString>, detected: Platform, atoi: string -> int): Options {
    ParseFrom(argv, 1, Defaults(detected), atoi)
  }

  // ---------------------------------------------------------------------
  // A second reading of the argument list: its segments.

  /** A flag with its value, a flag without one, or anything else. */
  datatype Segment = Valued(flag: string, value: string) | Switch(flag: string) | Plain(arg: string)

  predicate TakesValue(arg: string) {
    arg == "-m" || arg == "-f" || arg == "-t"
  }

  /** The segment the first argument starts: a flag with its value when one follows. */
  function HeadSegment(args: seq<string>): (seg: Segment)
    requires |args| > 0
    ensures |Words(seg)| <= |args| && Words(seg) == args[..|Words(seg)|]
  {
    if TakesValue(args[0]) && |args| >= 2 then Valued(args[0], args[1])
    else if args[0] == "-p" || args[0] == "-h" then Switch(args[0])
    else Plain(args[0])
  }

  /** How the arguments group, reading from the left. */
  function Segments(args: seq<string>): seq<Segment>
    decreases |args|
  {
    if |args| == 0 then []
    else
      var seg := HeadSegment(args);
      [seg] + Segments(args[|Words(seg)|..])
  }

  /** Only the recognised flags form `Valued` and `Switch` segments. */
  lemma {:induction false} SegmentsRecognised(args: seq<string>)
    ensures forall i :: 0 <= i < |Segments(args)| && !Segments(args)[i].Plain? ==> Recognised(Segments(args)[i])
    decreases |args|
  {
    if |args| > 0 {
      var seg := HeadSegment(args);
      assert !seg.Plain? ==> Recognised(seg);
      SegmentsRecognised(args[|Words(seg)|..]);
      assert Segments(args) == [seg] + Segments(args[|Words(seg)|..]);
    }
  }

  /** The arguments a segment stands for. */
  function Words(seg: Segment): (ws: seq<string>)
    ensures 1 <= |ws| <= 2
  {
    match seg
    case Valued(f, v) => [f, v]
    case Switch(f) => [f]
    case Plain(a) => [a]
  }

  function Unsegment(segs: seq<Segment>): seq<string> {
    if |segs| == 0 then [] else Words(segs[0]) + Unsegment(segs[1..])
  }

  /** How far one segment advances `command_start`. */
  function Advance(seg: Segment): nat {
    match seg
    case Valued(_, _) => 2
    case Switch(_) => 1
    case Plain(_) => 0
  }

  function Consumed(segs: seq<Segment>): nat {
    if |segs| == 0 then 0 else Advance(segs[0]) + Consumed(segs[1..])
  }

  /** The value of the last `flag` segment, looking from the right. */
  function LastValue(segs: seq<Segment>, flag: string): Option<string>
    decreases |segs|
  {
    if |segs| == 0 then None
    else
      var last := segs[|segs| - 1];
      if last.Valued? && last.flag == flag then Some(last.value)
      else LastValue(segs[..|segs| - 1], flag)
  }

  /** The platform of the last `-t` segment whose name is recognised, looking from the right. */
  function LastTarget(segs: seq<Segment>): Option<Platform>
    decreases |segs|
  {
    if |segs| == 0 then None
    else
      var last := segs[|segs| - 1];
      if last.Valued? && last.flag == "-t" && PlatformNamed(last.value).Some? then PlatformNamed(last.value)
      else LastTarget(segs[..|segs| - 1])
  }

  /**
   * The effect of one segment on the options. `Segments` never yields a
   * `Valued` flag other than `-m`, `-f`, `-t` or a `Switch` other than `-p`,
   * `-h` (`SegmentsRecognised`); the last branch of each case only keeps
   * `Apply` defined on every segment.
   */
  function Apply(o: Options, seg: Segment, atoi: string -> int): (r: Options)
    ensures r.commandStart == o.commandStart + Advance(seg)
  {
    match seg
    case Valued(f, v) =>
      if f == "-m" then o.(how := MethodChoice(atoi(v)), commandStart := o.commandStart + 2)
      else if f == "-f" then o.(file := v, commandStart := o.commandStart + 2)
      else if f == "-t" then
        var target := match PlatformNamed(v) case Some(p) => p case None => o.target;
        o.(target := target, commandStart := o.commandStart + 2)
      else o.(commandStart := o.commandStart + 2)
    case Switch(f) =>
      if f == "-p" then o.(popular := true, commandStart := o.commandStart + 1)
      else if f == "-h" then o.(help := true, commandStart := o.commandStart + 1)
      else o.(commandStart := o.commandStart + 1)
    case Plain(_) => o
  }

  function ApplyAll(segs: seq<Segment>, o: Options, atoi: string -> int): Options
    decreases |segs|
  {
    if |segs| == 0 then o else ApplyAll(segs[1..], Apply(o, segs[0], atoi), atoi)
  }

  // ---------------------------------------------------------------------
  // The outcome of a run.

  /** What the run prints, by kind; the two generated lines are spelled out by `Line`. */
  datatype Shown =
    | Usage
    | Help
    | PlatformAliases(target: Platform)
    | NoCommand
    | AlreadyExists(alias: string, file: string)
    | Definition(alias: string, command: string)

  datatype Report = Report(status: int, shown: Shown)

  /** `fopen` of `path`: a path the file system does not hold cannot be opened. */
  function Open(fs: map<string, seq<CString>>, path: string): AliasFile {
    if path in fs then Lines(fs[path]) else Missing
  }

  /** The line printed to standard output for the two generate outcomes. */
  function Line(shown: Shown): string {
    match shown
    case AlreadyExists(alias, file) => "# Alias '" + alias + "' already exists in '" + file + "'\n"
    case Definition(alias, command) => "alias " + alias + "='" + command + "'\n"
    case _ => []
  }

  /** `main`, with the platform, `atoi` and the file system as parameters. */
  function Run(argv: seq<CString>, detected: Platform, atoi: string -> int, fs: map<string, seq<CString>>): Report {
    if |argv| < 2 then Report(1, Usage)
    else
      var o := Parse(argv, detected, atoi);
      if o.help then Report(0, Help)
      else if o.popular then Report(0, PlatformAliases(o.target))
      else if o.commandStart >= |argv| then Report(1, NoCommand)
      else
        var command := argv[o.commandStart];
        var alias := Alias(command, o.how);
        if AliasDeclared(alias, Open(fs, o.file)) then Report(0, AlreadyExists(alias, o.file))
        else Report(0, Definition(alias, command))
  }

  /** `main` built from the two methods that mirror `generate_alias` and `check_alias_in_file`. */
  method Synonym(argv: seq<CString>, detected: Platform, atoi: string -> int, fs: map<string, seq<CString>>)
    returns (r: Report)
    ensures r == Run(argv, detected, atoi, fs)
  {
    if |argv| < 2 {
      return Report(1, Usage);
    }
    var o := Parse(argv, detected, atoi);
    if o.help {
      return Report(0, Help);
    }
    if o.popular {
      return Report(0, PlatformAliases(o.target));
    }
    if o.commandStart >= |argv| {
      return Report(1, NoCommand);
    }
    var command := argv[o.commandStart];
    var alias := GenerateAlias(command, o.how);
    var found := CheckAliasInFile(alias, Open(fs, o.file));
    if found {
      r := Report(0, AlreadyExists(alias, o.file));
    } else {
      r := Report(0, Definition(alias, command));
    }
  }

  // ---------------------------------------------------------------------
  // Platform names.

  /** Every platform except `OTHER` has exactly one name, and `-t` reads it back. */
  lemma PlatformNamesRoundTrip(p: Platform, name: string)
    ensures NameOf(p).Some? ==> PlatformNamed(NameOf(p).value) == Some(p)
    ensures PlatformNamed(name) == Some(p) ==> NameOf(p) == Some(name)
    ensures NameOf(p).None? <==> p == Other
  {
  }

  /** Selecting a method by its own width gives it back. */
  lemma MethodChoiceOfWidth(how: AliasMethod)
    ensures MethodChoice(how.Width()) == how
  {
  }

  // ---------------------------------------------------------------------
  // Segments partition the arguments.

  lemma UnsegmentCons(seg: Segment, rest: seq<Segment>)
    ensures Unsegment([seg] + rest) == Words(seg) + Unsegment(rest)
  {
    assert ([seg] + rest)[1..] == rest;
  }

  lemma ConsumedCons(seg: Segment, rest: seq<Segment>)
    ensures Consumed([seg] + rest) == Advance(seg) + Consumed(rest)
  {
    assert ([seg] + rest)[1..] == rest;
  }

  /** Reading the segments back in order gives the arguments again. */
  lemma {:induction false} SegmentsRoundTrip(args: seq<string>)
    ensures Unsegment(Segments(args)) == args
    decreases |args|
  {
    if |args| > 0 {
      var seg := HeadSegment(args);
      var w := |Words(seg)|;
      SegmentsRoundTrip(args[w..]);
      UnsegmentCons(seg, Segments(args[w..]));
      assert args == args[..w] + args[w..];
    }
  }

  /** The recognised options never consume more arguments than there are. */
  lemma {:induction false} ConsumedBound(args: seq<string>)
    ensures Consumed(Segments(args)) <= |args|
    decreases |args|
  {
    if |args| > 0 {
      var seg := HeadSegment(args);
      ConsumedBound(args[|Words(seg)|..]);
      ConsumedCons(seg, Segments(args[|Words(seg)|..]));
    }
  }

  // ---------------------------------------------------------------------
  // The parsing loop is the fold of the segments.

  lemma ApplyAllCons(seg: Segment, rest: seq<Segment>, o: Options, atoi: string -> int)
    ensures ApplyAll([seg] + rest, o, atoi) == ApplyAll(rest, Apply(o, seg, atoi), atoi)
  {
    assert ([seg] + rest)[1..] == rest;
  }

  lemma {:induction false} ApplyAllSnoc(segs: seq<Segment>, seg: Segment, o: Options, atoi: string -> int)
    ensures ApplyAll(segs + [seg], o, atoi) == Apply(ApplyAll(segs, o, atoi), seg, atoi)
    decreases |segs|
  {
    if |segs| == 0 {
      assert segs + [seg] == [seg] + [];
      ApplyAllCons(seg, [], o, atoi);
    } else {
      assert segs + [seg] == [segs[0]] + (segs[1..] + [seg]);
      ApplyAllCons(segs[0], segs[1..] + [seg], o, atoi);
      ApplyAllSnoc(segs[1..], seg, Apply(o, segs[0], atoi), atoi);
    }
  }

  /** The `for` loop of `main` applies the segments of `argv[i..]` one after another. */
  lemma {:induction false} ParseIsFold(argv: seq<CString>, i: nat, o: Options, atoi: string -> int)
    requires i <= |argv|
    ensures ParseFrom(argv, i, o, atoi) == ApplyAll(Segments(argv[i..]), o, atoi)
    decreases |argv| - i
  {
    var args := argv[i..];
    if i == |argv| {
      assert args == [];
    } else {
      assert args[0] == argv[i];
      if TakesValue(argv[i]) && i + 1 < |argv| {
        var seg := Valued(argv[i], argv[i + 1]);
        assert args[1] == argv[i + 1] && args[2..] == argv[i + 2..];
        ParseIsFold(argv, i + 2, Apply(o, seg, atoi), atoi);
        ApplyAllCons(seg, Segments(argv[i + 2..]), o, atoi);
      } else {
        var seg := if argv[i] == "-p" || argv[i] == "-h" then Switch(argv[i]) else Plain(argv[i]);
        assert args[1..] == argv[i + 1..];
        ParseIsFold(argv, i + 1, Apply(o, seg, atoi), atoi);
        ApplyAllCons(seg, Segments(argv[i + 1..]), o, atoi);
      }
    }
  }

  lemma {:induction false} ApplyAllCommandStart(segs: seq<Segment>, o: Options, atoi: string -> int)
    ensures ApplyAll(segs, o, atoi).commandStart == o.commandStart + Consumed(segs)
    decreases |segs|
  {
    if |segs| > 0 {
      ApplyAllCommandStart(segs[1..], Apply(o, segs[0], atoi), atoi);
    }
  }

  /** A switch is set if it was set before or occurs among the segments. */
  lemma {:induction false} ApplyAllSwitches(segs: seq<Segment>, o: Options, atoi: string -> int)
    ensures ApplyAll(segs, o, atoi).popular <==> o.popular || Switch("-p") in segs
    ensures ApplyAll(segs, o, atoi).help <==> o.help || Switch("-h") in segs
    decreases |segs|
  {
    if |segs| > 0 {
      assert segs == [segs[0]] + segs[1..];
      ApplyAllSwitches(segs[1..], Apply(o, segs[0], atoi), atoi);
    }
  }

  /** The last `-f` value wins. */
  lemma {:induction false} ApplyAllFile(segs: seq<Segment>, o: Options, atoi: string -> int)
    ensures ApplyAll(segs, o, atoi).file == (match LastValue(segs, "-f") case Some(v) => v case None => o.file)
    decreases |segs|
  {
    if |segs| > 0 {
      var init := segs[..|segs| - 1];
      assert segs == init + [segs[|segs| - 1]];
      ApplyAllSnoc(init, segs[|segs| - 1], o, atoi);
      ApplyAllFile(init, o, atoi);
    }
  }

  /** The last `-m` value wins, an unsupported number selecting the first letter. */
  lemma {:induction false} ApplyAllMethod(segs: seq<Segment>, o: Options, atoi: string -> int)
    ensures ApplyAll(segs, o, atoi).how ==
            (match LastValue(segs, "-m") case Some(v) => MethodChoice(atoi(v)) case None => o.how)
    decreases |segs|
  {
    if |segs| > 0 {
      var init := segs[..|segs| - 1];
      assert segs == init + [segs[|segs| - 1]];
      ApplyAllSnoc(init, segs[|segs| - 1], o, atoi);
      ApplyAllMethod(init, o, atoi);
    }
  }

  /** The last recognised `-t` name wins; an unknown name changes nothing. */
  lemma {:induction false} ApplyAllTarget(segs: seq<Segment>, o: Options, atoi: string -> int)
    ensures ApplyAll(segs, o, atoi).target == (match LastTarget(segs) case Some(p) => p case None => o.target)
    decreases |segs|
  {
    if |segs| > 0 {
      var init := segs[..|segs| - 1];
      assert segs == init + [segs[|segs| - 1]];
      ApplyAllSnoc(init, segs[|segs| - 1], o, atoi);
      ApplyAllTarget(init, o, atoi);
    }
  }

  // ---------------------------------------------------------------------
  // What a run does, read off the segments of `argv[1..]`.

  /** The method in force after all options: the last `-m`, or the default. */
  function ChosenMethod(segs: seq<Segment>, atoi: string -> int): AliasMethod {
    match LastValue(segs, "-m") case Some(v) => MethodChoice(atoi(v)) case None => FirstLetter
  }

  /** The alias file in force after all options: the last `-f`, or `.profile`. */
  function ChosenFile(segs: seq<Segment>): string {
    match LastValue(segs, "-f") case Some(v) => v case None => ".profile"
  }

  /** The platform in force after all options: the last recognised `-t`, or the detected one. */
  function ChosenTarget(segs: seq<Segment>, detected: Platform): Platform {
    match LastTarget(segs) case Some(p) => p case None => detected
  }

  /** The options `main` ends up with, described by the segments rather than the loop. */
  lemma ParseSummary(argv: seq<CString>, detected: Platform, atoi: string -> int)
    requires |argv| >= 1
    ensures var o := Parse(argv, detected, atoi);
            var segs := Segments(argv[1..]);
            && o.commandStart == 1 + Consumed(segs) <= |argv|
            && o.how == ChosenMethod(segs, atoi)
            && o.file == ChosenFile(segs)
            && o.target == ChosenTarget(segs, detected)
            && (o.popular <==> Switch("-p") in segs)
            && (o.help <==> Switch("-h") in segs)
  {
    var segs := Segments(argv[1..]);
    var d := Defaults(detected);
    ParseIsFold(argv, 1, d, atoi);
    ConsumedBound(argv[1..]);
    ApplyAllCommandStart(segs, d, atoi);
    ApplyAllSwitches(segs, d, atoi);
    ApplyAllFile(segs, d, atoi);
    ApplyAllMethod(segs, d, atoi);
    ApplyAllTarget(segs, d, atoi);
  }

  /** Fewer than two arguments: the usage message and status 1. */
  lemma RunWithoutArguments(argv: seq<CString>, detected: Platform, atoi: string -> int, fs: map<string, seq<CString>>)
    requires |argv| < 2
    ensures Run(argv, detected, atoi, fs) == Report(1, Usage)
  {
  }

  /** `-h` as an option, not as the value of `-m`, `-f` or `-t`, wins over everything else. */
  lemma RunHelp(argv: seq<CString>, detected: Platform, atoi: string -> int, fs: map<string, seq<CString>>)
    requires |argv| >= 2 && Switch("-h") in Segments(argv[1..])
    ensures Run(argv, detected, atoi, fs) == Report(0, Help)
  {
    ParseSummary(argv, detected, atoi);
  }

  /** Without `-h`, `-p` lists the aliases of the chosen platform, whatever else is given. */
  lemma RunPlatformAliases(argv: seq<CString>, detected: Platform, atoi: string -> int, fs: map<string, seq<CString>>)
    requires |argv| >= 2
    requires Switch("-h") !in Segments(argv[1..]) && Switch("-p") in Segments(argv[1..])
    ensures Run(argv, detected, atoi, fs) ==
            Report(0, PlatformAliases(ChosenTarget(Segments(argv[1..]), detected)))
  {
    ParseSummary(argv, detected, atoi);
  }

  /** When the options use up every argument there is no command: status 1. */
  lemma RunNoCommand(argv: seq<CString>, detected: Platform, atoi: string -> int, fs: map<string, seq<CString>>)
    requires |argv| >= 2
    requires Switch("-h") !in Segments(argv[1..]) && Switch("-p") !in Segments(argv[1..])
    requires 1 + Consumed(Segments(argv[1..])) == |argv|
    ensures Run(argv, detected, atoi, fs) == Report(1, NoCommand)
  {
    ParseSummary(argv, detected, atoi);
  }

  /**
   * Otherwise the command is the argument just past as many positions as the
   * options take, wherever those options stand; its alias is looked up in the
   * chosen file and either reported as existing or printed as a definition.
   */
  lemma RunGenerate(argv: seq<CString>, detected: Platform, atoi: string -> int, fs: map<string, seq<CString>>)
    requires |argv| >= 2
    requires Switch("-h") !in Segments(argv[1..]) && Switch("-p") !in Segments(argv[1..])
    requires 1 + Consumed(Segments(argv[1..])) < |argv|
    ensures var segs := Segments(argv[1..]);
            var command := argv[1 + Consumed(segs)];
            var alias := Alias(command, ChosenMethod(segs, atoi));
            var file := ChosenFile(segs);
            Run(argv, detected, atoi, fs) ==
              if AliasDeclared(alias, Open(fs, file)) then Report(0, AlreadyExists(alias, file))
              else Report(0, Definition(alias, command))
  {
    ParseSummary(argv, detected, atoi);
  }

  /** Status 1 exactly for the usage message and the missing command; 0 otherwise. */
  lemma RunStatus(argv: seq<CString>, detected: Platform, atoi: string -> int, fs: map<string, seq<CString>>)
    ensures var r := Run(argv, detected, atoi, fs);
            r.status == (if r.shown.Usage? || r.shown.NoCommand? then 1 else 0)
  {
  }

  /** The printed definition line is a C string that declares its alias. */
  lemma DefinitionLineDeclares(alias: string, command: CString)
    requires '=' !in alias && '\0' !in alias
    ensures '\0' !in Line(Definition(alias, command))
    ensures Declares(Line(Definition(alias, command)), alias)
  {
    var value := "'" + command + "'\n";
    assert Line(Definition(alias, command)) == DeclarationPrefix + alias + "=" + value;
    DeclaredNameOfDefinition(alias, value);
  }

  lemma AppendedLineFound(fs: map<string, seq<CString>>, file: string, line: CString, alias: string)
    requires Declares(line, alias)
    ensures var lines := if file in fs then fs[file] else [];
            AliasDeclared(alias, Open(fs[file := lines + [line]], file))
  {
    var lines := if file in fs then fs[file] else [];
    DeclaredAnywhere(alias, lines, line, []);
    assert lines + [line] + [] == lines + [line];
  }

  /**
   * The file is empty or its last line ends in a newline, so text appended
   * to it starts a line of its own; otherwise `fgets` would read the old last
   * line and the appended text as one line.
   */
  predicate EndsWithNewline(lines: seq<CString>) {
    |lines| == 0 || (|lines[|lines| - 1]| > 0 && lines[|lines| - 1][|lines[|lines| - 1]| - 1] == '\n')
  }

  /**
   * Appending the printed definition to the alias file makes the same
   * invocation report that the alias already exists, when the alias has no
   * `=` and the file does not end in the middle of a line.
   */
  lemma AppendedDefinitionIsFound(argv: seq<CString>, detected: Platform, atoi: string -> int, fs: map<string, seq<CString>>)
    requires Run(argv, detected, atoi, fs).shown.Definition?
    requires '=' !in Run(argv, detected, atoi, fs).shown.alias
    requires var file := Parse(argv, detected, atoi).file;
             EndsWithNewline(if file in fs then fs[file] else [])
    ensures var r := Run(argv, detected, atoi, fs);
            var file := Parse(argv, detected, atoi).file;
            var lines := if file in fs then fs[file] else [];
            '\0' !in Line(r.shown) &&
            Run(argv, detected, atoi, fs[file := lines + [Line(r.shown)]]) == Report(0, AlreadyExists(r.shown.alias, file))
  {
    var o := Parse(argv, detected, atoi);
    var command: CString := argv[o.commandStart];
    var alias := Alias(command, o.how);
    assert Run(argv, detected, atoi, fs).shown == Definition(alias, command);
    AliasOmits(command, o.how, '\0');
    DefinitionLineDeclares(alias, command);
    var line: CString := Line(Definition(alias, command));
    AppendedLineFound(fs, o.file, line, alias);
  }

  /**
   * Why the last line must end in a newline: appended after `alias x='y'`,
   * the definition of `l` joins that line and only `x` is declared.
   */
  lemma AppendAfterUnterminatedLine()
    ensures !EndsWithNewline(["alias x='y'"])
    ensures !AliasDeclared("l", Lines(["alias x='y'" + Line(Definition("l", "ls"))]))
  {
    var joined := "alias x='y'" + Line(Definition("l", "ls"));
    DeclaredNameOfDefinition("x", "'y'alias l='ls'\n");
    assert joined == DeclarationPrefix + "x" + "=" + "'y'alias l='ls'\n";
    assert [joined][0] == joined;
  }

  /**
   * A command with a newline inside can give an alias with a newline inside;
   * `fgets` would read its definition back as three lines, none of which
   * declares that alias.
   */
  lemma NewlineAlias()
    ensures Alias(Join(["a\nb"]), FirstThreeLetters) == "a\nb"
    ensures Line(Definition("a\nb", "a\nb")) == "alias a\n" + "b='a\n" + "b'\n"
    ensures !AliasDeclared("a\nb", Lines(["alias a\n", "b='a\n", "b'\n"]))
  {
    assert IsWord("a\nb");
    AliasOfWords(["a\nb"], FirstThreeLetters);
    AbbreviateLower("a\nb", 3);
    assert AbbreviateAll(["a\nb"], 3) == Abbreviate("a\nb", 3);
    DeclaredNameWithoutEquals("a\n");
    assert "alias a\n" == DeclarationPrefix + "a\n";
  }

  // ---------------------------------------------------------------------
  // The documented usage: options first, then the command.

  /** A segment `main` acts on: a value flag with its value, or `-p` / `-h`. */
  predicate Recognised(seg: Segment) {
    match seg
    case Valued(f, _) => TakesValue(f)
    case Switch(f) => f == "-p" || f == "-h"
    case Plain(_) => false
  }

  /** Every segment is a recognised option. */
  predicate OnlyOptions(segs: seq<Segment>) {
    |segs| == 0 || (Recognised(segs[0]) && OnlyOptions(segs[1..]))
  }

  lemma ConsumedAppend(a: seq<Segment>, b: seq<Segment>)
    ensures Consumed(a + b) == Consumed(a) + Consumed(b)
    decreases |a|
  {
    if |a| > 0 {
      assert (a + b)[1..] == a[1..] + b;
      ConsumedAppend(a[1..], b);
    } else {
      assert a + b == b;
    }
  }

  /** Recognised options consume exactly the arguments they stand for. */
  lemma {:induction false} ConsumedRecognised(segs: seq<Segment>)
    requires OnlyOptions(segs)
    ensures Consumed(segs) == |Unsegment(segs)|
    decreases |segs|
  {
    if |segs| > 0 {
      ConsumedRecognised(segs[1..]);
    }
  }

  lemma HeadOfRecognised(seg: Segment, tail: seq<string>)
    requires Recognised(seg)
    ensures Segments(Words(seg) + tail) == [seg] + Segments(tail)
  {
    var args := Words(seg) + tail;
    assert HeadSegment(args) == seg;
    assert args[|Words(seg)|..] == tail;
  }

  /** Options written out and followed by more arguments are read back as the same options. */
  lemma {:induction false} SegmentsOfOptions(segs: seq<Segment>, rest: seq<string>)
    requires OnlyOptions(segs)
    ensures Segments(Unsegment(segs) + rest) == segs + Segments(rest)
    decreases |segs|
  {
    if |segs| == 0 {
      assert Unsegment(segs) + rest == rest;
    } else {
      var seg, more := segs[0], segs[1..];
      var tail := Unsegment(more) + rest;
      assert Unsegment(segs) + rest == Words(seg) + tail by {
        assert segs == [seg] + more;
        UnsegmentCons(seg, more);
      }
      assert Segments(tail) == more + Segments(rest) by {
        SegmentsOfOptions(more, rest);
      }
      calc {
        Segments(Unsegment(segs) + rest);
        { HeadOfRecognised(seg, tail); }
        [seg] + Segments(tail);
        [seg] + (more + Segments(rest));
        { assert segs == [seg] + more; }
        segs + Segments(rest);
      }
    }
  }

  /** The segments of options followed by a plain command. */
  lemma SegmentsOfCommandLine(segs: seq<Segment>, command: string)
    requires OnlyOptions(segs)
    requires command != "-p" && command != "-h"
    ensures var all := Segments(Unsegment(segs) + [command]);
            && all == segs + [Plain(command)]
            && Consumed(all) == |Unsegment(segs)|
            && LastValue(all, "-m") == LastValue(segs, "-m")
            && LastValue(all, "-f") == LastValue(segs, "-f")
  {
    var all := Segments(Unsegment(segs) + [command]);
    assert all == segs + [Plain(command)] by {
      SegmentsOfOptions(segs, [command]);
      assert HeadSegment([command]) == Plain(command);
      assert [command][1..] == [];
    }
    assert all[..|all| - 1] == segs;
    ConsumedAppend(segs, [Plain(command)]);
    assert Consumed([Plain(command)]) == 0;
    ConsumedRecognised(segs);
  }

  /**
   * `synonym <options> <command>`: when the options come first and the
   * command is last, the command is the one generated from, with the
   * chosen method and looked up in the chosen file.
   */
  lemma OptionsThenCommand(argv: seq<CString>, segs: seq<Segment>, command: CString,
                           detected: Platform, atoi: string -> int, fs: map<string, seq<CString>>)
    requires OnlyOptions(segs)
    requires Switch("-h") !in segs && Switch("-p") !in segs
    requires command != "-p" && command != "-h"
    requires |argv| >= 1 && argv[1..] == Unsegment(segs) + [command]
    ensures var alias := Alias(command, ChosenMethod(segs, atoi));
            var file := ChosenFile(segs);
            Run(argv, detected, atoi, fs) ==
              if AliasDeclared(alias, Open(fs, file)) then Report(0, AlreadyExists(alias, file))
              else Report(0, Definition(alias, command))
  {
    SegmentsOfCommandLine(segs, command);
    RunGenerate(argv, detected, atoi, fs);
  }

  // ---------------------------------------------------------------------
  // Particular invocations.

  /** `-p` with `-t` lists the named platform's aliases, whatever platform was detected. */
  lemma NamedPlatformList(detected: Platform, atoi: string -> int, fs: map<string, seq<CString>>)
    ensures Run(["synonym", "-p", "-t", "freebsd"], detected, atoi, fs) == Report(0, PlatformAliases(FreeBSD))
  {
    var argv: seq<CString> := ["synonym", "-p", "-t", "freebsd"];
    assert PlatformNamed("freebsd") == Some(FreeBSD);
    var o := Parse(argv, detected, atoi);
    assert o == Defaults(detected).(popular := true, target := FreeBSD, commandStart := 4);
  }

  /** An unknown platform name leaves the earlier choice in force. */
  lemma UnknownPlatformIgnored(detected: Platform, atoi: string -> int, fs: map<string, seq<CString>>)
    ensures Run(["synonym", "-t", "aix", "-t", "beos", "-p"], detected, atoi, fs) == Report(0, PlatformAliases(Aix))
  {
    var argv: seq<CString> := ["synonym", "-t", "aix", "-t", "beos", "-p"];
    assert PlatformNamed("aix") == Some(Aix);
    assert PlatformNamed("beos") == None;
    var o := Parse(argv, detected, atoi);
    assert o.popular && !o.help && o.target == Aix;
  }

  /** `-h` wins even after `-p` and a command. */
  lemma HelpWins(detected: Platform, atoi: string -> int, fs: map<string, seq<CString>>)
    ensures Run(["synonym", "ls", "-p", "-h"], detected, atoi, fs) == Report(0, Help)
  {
  }

  /** Options alone leave no command. */
  lemma OptionsWithoutCommand(detected: Platform, atoi: string -> int, fs: map<string, seq<CString>>)
    ensures Run(["synonym", "-m", "2"], detected, atoi, fs) == Report(1, NoCommand)
  {
  }

  /** An alias file that cannot be opened hides nothing: the definition is always printed. */
  lemma MissingFileDefines(path: CString, command: CString, detected: Platform, atoi: string -> int,
                           fs: map<string, seq<CString>>)
    requires path !in fs
    requires command != "-p" && command != "-h"
    ensures Run(["synonym", "-f", path, command], detected, atoi, fs) ==
            Report(0, Definition(Alias(command, FirstLetter), command))
  {
    var argv: seq<CString> := ["synonym", "-f", path, command];
    var opts := [Valued("-f", path)];
    assert OnlyOptions(opts);
    assert argv[1..] == Unsegment(opts) + [command];
    OptionsThenCommand(argv, opts, command, detected, atoi, fs);
    assert opts[..0] == [];
    assert LastValue(opts, "-m") == None;
    assert ChosenFile(opts) == path;
    MissingFileNeverDeclares(Alias(command, FirstLetter));
  }

  /** A `-m` value other than 1, 2 or 3 behaves as if no `-m` were given. */
  lemma UnsupportedMethodIsFirstLetter(v: CString, command: CString, detected: Platform, atoi: string -> int,
                                       fs: map<string, seq<CString>>)
    requires !(1 <= atoi(v) <= 3)
    requires command != "-p" && command != "-h"
    ensures Run(["synonym", "-m", v, command], detected, atoi, fs) == Run(["synonym", command], detected, atoi, fs)
  {
    var with: seq<CString> := ["synonym", "-m", v, command];
    var without: seq<CString> := ["synonym", command];
    var m := [Valued("-m", v)];
    assert OnlyOptions(m);
    assert with[1..] == Unsegment(m) + [command];
    OptionsThenCommand(with, m, command, detected, atoi, fs);
    assert OnlyOptions([]);
    assert without[1..] == Unsegment([]) + [command];
    OptionsThenCommand(without, [], command, detected, atoi, fs);
  }

  /** A lone `-m`, with nothing after it, is the command. */
  lemma TrailingFlagIsTheCommand(detected: Platform, atoi: string -> int, fs: map<string, seq<CString>>)
    requires ".profile" !in fs
    ensures Run(["synonym", "-m"], detected, atoi, fs) == Report(0, Definition("-", "-m"))
  {
    var o := Parse(["synonym", "-m"], detected, atoi);
    assert o == Defaults(detected);
    assert Join(["-m"]) == "-m";
    AliasOfWords(["-m"], FirstLetter);
    assert AbbreviateAll(["-m"], 1) == "-";
  }

  /** A `-h` taken as the value of `-f` names the file and does not ask for help. */
  lemma HelpAsValue(detected: Platform, atoi: string -> int, fs: map<string, seq<CString>>)
    requires "-h" !in fs
    ensures Run(["synonym", "-f", "-h", "ls"], detected, atoi, fs) == Report(0, Definition("l", "ls"))
  {
    var o := Parse(["synonym", "-f", "-h", "ls"], detected, atoi);
    assert o.commandStart == 3 && !o.help && !o.popular && o.file == "-h" && o.how == FirstLetter;
    assert Join(["ls"]) == "ls";
    AliasOfWords(["ls"], FirstLetter);
    assert AbbreviateAll(["ls"], 1) == "l";
  }

  /** A trailing `-m` after the command is not an option and does not move the command position. */
  lemma TrailingFlagAfterCommand(detected: Platform, atoi: string -> int, fs: map<string, seq<CString>>)
    requires ".profile" !in fs
    ensures Run(["synonym", "ls", "-m"], detected, atoi, fs) == Report(0, Definition("l", "ls"))
  {
    var o := Parse(["synonym", "ls", "-m"], detected, atoi);
    assert o == Defaults(detected);
    assert Join(["ls"]) == "ls";
    AliasOfWords(["ls"], FirstLetter);
    assert AbbreviateAll(["ls"], 1) == "l";
  }

  /**
   * Options after the command still advance the command position: here the
   * command taken is the `-m` value, not `ls -la`.
   */
  lemma OptionAfterCommand(detected: Platform, atoi: string -> int, fs: map<string, seq<CString>>)
    requires atoi("2") == 2
    requires ".profile" !in fs
    ensures Run(["synonym", "ls -la", "-m", "2"], detected, atoi, fs) == Report(0, Definition("2", "2"))
  {
    var o := Parse(["synonym", "ls -la", "-m", "2"], detected, atoi);
    assert o.commandStart == 3 && o.how == FirstTwoLetters && o.file == ".profile";
    assert Join(["2"]) == "2";
    AliasOfWords(["2"], FirstTwoLetters);
    assert AbbreviateAll(["2"], 2) == "2";
  }
}
