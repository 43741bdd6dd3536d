/**
  The command line of the ping statistics tool: the left-to-right option
  scanner, the output-format parser, and the defaulting and exit-code
  decisions taken before any session starts.

  Number parsing (`std::stod`) is a parameter `stod`: `None` stands for a
  thrown conversion error.
*/
module Cli {
  import opened Wrappers

  const DefaultIntervalSeconds: real := 1.0
  const DefaultExportPath: string := "pingstats.csv"

  datatype OutputFormat = FormatNone | Csv | Json

  /** Why the scanner throws. */
  datatype CliError =
    | MissingValue(option: string)
    | InvalidInterval(value: string)
    | NonPositiveInterval
    | UnknownFormat(value: string)
    | UnknownOption(arg: string)

  /** The options collected so far; every field starts unset, empty or false. */
  datatype Options = Options(
    interval: Option<real>,
    format: Option<OutputFormat>,
    file: Option<string>,
    hosts: seq<string>,
    showHelp: bool,
    showVersion: bool)

  const NoOptions := Options(None, None, None, [], false, false)

  /** The name each format is spelled with on the command line. */
  function FormatName(f: OutputFormat): string {
    match f
    case FormatNone => "none"
    case Csv => "csv"
    case Json => "json"
  }

  /** `parse_output_format`: exactly the three names are accepted, anything else throws. */
  function ParseOutputFormat(value: string): (r: Result<OutputFormat, CliError>)
    ensures r.Ok? <==> value == "none" || value == "csv" || value == "json"
    ensures r.Ok? ==> FormatName(r.value) == value
    ensures r.Err? ==> r.error == UnknownFormat(value)
  {
    if value == "none" then Ok(FormatNone)
    else if value == "csv" then Ok(Csv)
    else if value == "json" then Ok(Json)
    else Err(UnknownFormat(value))
  }

  lemma FormatRoundTrip(f: OutputFormat)
    ensures ParseOutputFormat(FormatName(f)) == Ok(f)
  {
  }

  /** Whether `arg` is taken for an option rather than a host: it starts with '-'. */
  predicate LooksLikeOption(arg: string) {
    |arg| > 0 && arg[0] == '-'
  }

  /**
    The scanner of `parse_arguments` from the current options `opts` over
    the remaining arguments: help and version stop scanning at once, the
    three value options consume the next argument, any other argument
    starting with '-' throws, and every other argument (the empty one too)
    is appended to the hosts.  So the hosts already collected stay in
    front, and no host the scan adds starts with '-'.
  */
  function Scan(opts: Options, args: seq<string>, stod: string -> Option<real>): (r: Result<Options, CliError>)
    ensures r.Ok? ==> |opts.hosts| <= |r.value.hosts| && r.value.hosts[..|opts.hosts|] == opts.hosts
    ensures r.Ok? ==> forall i :: |opts.hosts| <= i < |r.value.hosts| ==> !LooksLikeOption(r.value.hosts[i])
    decreases |args|
  {
    if args == [] then Ok(opts)
    else
      var arg := args[0];
      if arg == "-h" || arg == "--help" then Ok(opts.(showHelp := true))
      else if arg == "--version" then Ok(opts.(showVersion := true))
      else if arg == "-i" || arg == "--interval" then
        if |args| < 2 then Err(MissingValue("interval"))
        else match stod(args[1])
          case None => Err(InvalidInterval(args[1]))
          case Some(v) =>
            if v <= 0.0 then Err(NonPositiveInterval)
            else Scan(opts.(interval := Some(v)), args[2..], stod)
      else if arg == "--output-format" then
        if |args| < 2 then Err(MissingValue("output-format"))
        else match ParseOutputFormat(args[1])
          case Err(e) => Err(e)
          case Ok(f) => Scan(opts.(format := Some(f)), args[2..], stod)
      else if arg == "--output-file" then
        if |args| < 2 then Err(MissingValue("output-file"))
        else Scan(opts.(file := Some(args[1])), args[2..], stod)
      else if LooksLikeOption(arg) then Err(UnknownOption(arg))
      else Scan(opts.(hosts := opts.hosts + [arg]), args[1..], stod)
  }

  /**
    `parse_arguments` over `argv[1..]`: a stored interval is positive and
    no host starts with '-'.
  */
  function ParseArguments(args: seq<string>, stod: string -> Option<real>): (r: Result<Options, CliError>)
    ensures r.Ok? && r.value.interval.Some? ==> r.value.interval.value > 0.0
    ensures r.Ok? ==> forall i :: 0 <= i < |r.value.hosts| ==> !LooksLikeOption(r.value.hosts[i])
  {
    IntervalPositive(NoOptions, args, stod);
    Scan(NoOptions, args, stod)
  }

  /** Scanning stopped early because help or version was asked for. */
  predicate Stopped(opts: Options) {
    opts.showHelp || opts.showVersion
  }

  /**
    Scanning is left to right: once a prefix scans without error and
    without stopping, the rest is scanned from the options it produced.
  */
  lemma {:induction false} ScanCompose(opts: Options, pre: seq<string>, rest: seq<string>, stod: string -> Option<real>)
    requires !Stopped(opts)
    requires Scan(opts, pre, stod).Ok? && !Stopped(Scan(opts, pre, stod).value)
    ensures Scan(opts, pre + rest, stod) == Scan(Scan(opts, pre, stod).value, rest, stod)
    decreases |pre|
  {
    if pre != [] {
      var all := pre + rest;
      assert all[0] == pre[0];
      var arg := pre[0];
      if arg == "-i" || arg == "--interval" || arg == "--output-format" || arg == "--output-file" {
        assert all[1] == pre[1] && all[2..] == pre[2..] + rest;
        var next: Options;
        if arg == "-i" || arg == "--interval" {
          next := opts.(interval := stod(pre[1]));
        } else if arg == "--output-format" {
          next := opts.(format := Some(ParseOutputFormat(pre[1]).value));
        } else {
          next := opts.(file := Some(pre[1]));
        }
        assert Scan(opts, pre, stod) == Scan(next, pre[2..], stod);
        assert Scan(opts, all, stod) == Scan(next, all[2..], stod);
        ScanCompose(next, pre[2..], rest, stod);
      } else {
        var next := opts.(hosts := opts.hosts + [arg]);
        assert all[1..] == pre[1..] + rest;
        assert Scan(opts, pre, stod) == Scan(next, pre[1..], stod);
        assert Scan(opts, all, stod) == Scan(next, all[1..], stod);
        ScanCompose(next, pre[1..], rest, stod);
      }
    } else {
      assert pre + rest == rest;
    }
  }

  /**
    An error raised inside a prefix is raised whatever follows, unless it
    is a value option missing its value at the very end of the prefix.
  */
  lemma {:induction false} ErrorPropagates(opts: Options, pre: seq<string>, rest: seq<string>, stod: string -> Option<real>)
    requires Scan(opts, pre, stod).Err? && !Scan(opts, pre, stod).error.MissingValue?
    ensures Scan(opts, pre + rest, stod) == Scan(opts, pre, stod)
    decreases |pre|
  {
    var all := pre + rest;
    assert all[0] == pre[0];
    var arg := pre[0];
    if arg == "-i" || arg == "--interval" || arg == "--output-format" || arg == "--output-file" {
      assert all[1] == pre[1] && all[2..] == pre[2..] + rest;
      var v := stod(pre[1]);
      if arg == "-i" || arg == "--interval" {
        if v.Some? && v.value > 0.0 {
          ErrorPropagates(opts.(interval := Some(v.value)), pre[2..], rest, stod);
        }
      } else if arg == "--output-format" {
        if ParseOutputFormat(pre[1]).Ok? {
          ErrorPropagates(opts.(format := Some(ParseOutputFormat(pre[1]).value)), pre[2..], rest, stod);
        }
      } else {
        ErrorPropagates(opts.(file := Some(pre[1])), pre[2..], rest, stod);
      }
    } else if !LooksLikeOption(arg) {
      assert all[1..] == pre[1..] + rest;
      ErrorPropagates(opts.(hosts := opts.hosts + [arg]), pre[1..], rest, stod);
    }
  }

  /**
    `-h`, `--help` and `--version` end the scan with the matching flag set
    and the options gathered so far: nothing after them is looked at, not
    even an invalid option.
  */
  lemma StopsAtHelpOrVersion(pre: seq<string>, flag: string, rest: seq<string>, stod: string -> Option<real>)
    requires flag == "-h" || flag == "--help" || flag == "--version"
    requires ParseArguments(pre, stod).Ok? && !Stopped(ParseArguments(pre, stod).value)
    ensures var before := ParseArguments(pre, stod).value;
      ParseArguments(pre + [flag] + rest, stod) ==
        Ok(if flag == "--version" then before.(showVersion := true) else before.(showHelp := true))
  {
    ScanCompose(NoOptions, pre, [flag] + rest, stod);
    assert pre + [flag] + rest == pre + ([flag] + rest);
  }

  /** Arguments that do not look like options all become hosts, in order. */
  lemma {:induction false} PlainArgumentsAreHosts(opts: Options, args: seq<string>, stod: string -> Option<real>)
    requires forall i :: 0 <= i < |args| ==> !LooksLikeOption(args[i])
    ensures Scan(opts, args, stod) == Ok(opts.(hosts := opts.hosts + args))
    decreases |args|
  {
    if args != [] {
      var arg := args[0];
      assert !LooksLikeOption(arg);
      assert Scan(opts, args, stod) == Scan(opts.(hosts := opts.hosts + [arg]), args[1..], stod);
      PlainArgumentsAreHosts(opts.(hosts := opts.hosts + [arg]), args[1..], stod);
      assert opts.hosts + [arg] + args[1..] == opts.hosts + args;
    } else {
      assert opts.hosts + args == opts.hosts;
    }
  }

  /** A repeated value option keeps its last value: the first occurrence is overwritten. */
  lemma LastOccurrenceWins(opts: Options, option: string, v1: string, v2: string, rest: seq<string>, stod: string -> Option<real>)
    requires option in ["-i", "--interval", "--output-format", "--output-file"]
    requires !Stopped(opts)
    requires Scan(opts, [option, v1], stod).Ok?
    ensures Scan(opts, [option, v1, option, v2] + rest, stod) == Scan(opts, [option, v2] + rest, stod)
  {
    var first := Scan(opts, [option, v1], stod).value;
    ScanCompose(opts, [option, v1], [option, v2] + rest, stod) by {
      assert [option, v1][2..] == [];
    }
    assert [option, v1] + ([option, v2] + rest) == [option, v1, option, v2] + rest;
    var all := [option, v2] + rest;
    assert all[0] == option && all[1] == v2 && all[2..] == rest;
    if option == "-i" || option == "--interval" {
      assert first == opts.(interval := first.interval);
    } else if option == "--output-format" {
      assert first == opts.(format := first.format);
    } else {
      assert first == opts.(file := first.file);
    }
  }

  // ---------------------------------------------------------------------
  // Rendering options back into arguments

  function RenderInterval(opts: Options, show: real -> string): seq<string> {
    match opts.interval
    case Some(v) => ["-i", show(v)]
    case None => []
  }

  function RenderFormat(opts: Options): seq<string> {
    match opts.format
    case Some(f) => ["--output-format", FormatName(f)]
    case None => []
  }

  function RenderFile(opts: Options): seq<string> {
    match opts.file
    case Some(path) => ["--output-file", path]
    case None => []
  }

  /**
    An argument list that asks for `opts`: each set value option once,
    then the hosts. `show` prints an interval.
  */
  function Render(opts: Options, show: real -> string): seq<string> {
    RenderInterval(opts, show) + (RenderFormat(opts) + (RenderFile(opts) + opts.hosts))
  }

  /** Options the scanner can produce without stopping: a positive interval and hosts that do not look like options. */
  predicate Renderable(opts: Options) {
    && !Stopped(opts)
    && (opts.interval.Some? ==> opts.interval.value > 0.0)
    && (forall i :: 0 <= i < |opts.hosts| ==> !LooksLikeOption(opts.hosts[i]))
  }

  lemma ScanRenderInterval(o: Options, opts: Options, show: real -> string, stod: string -> Option<real>)
    requires o.interval.None?
    requires opts.interval.Some? ==> opts.interval.value > 0.0 && stod(show(opts.interval.value)) == opts.interval
    ensures Scan(o, RenderInterval(opts, show), stod) == Ok(o.(interval := opts.interval))
  {
    if opts.interval.Some? {
      var a := RenderInterval(opts, show);
      assert a[2..] == [];
    }
  }

  lemma ScanRenderFormat(o: Options, opts: Options, stod: string -> Option<real>)
    requires o.format.None?
    ensures Scan(o, RenderFormat(opts), stod) == Ok(o.(format := opts.format))
  {
    if opts.format.Some? {
      var b := RenderFormat(opts);
      FormatRoundTrip(opts.format.value);
      assert b[2..] == [];
    }
  }

  lemma ScanRenderFile(o: Options, opts: Options, stod: string -> Option<real>)
    requires o.file.None?
    ensures Scan(o, RenderFile(opts), stod) == Ok(o.(file := opts.file))
  {
    if opts.file.Some? {
      var c := RenderFile(opts);
      assert c[0] == "--output-file";
      assert c[0] != "-h" && c[0] != "--help" && c[0] != "--version";
      assert c[0] != "-i" && c[0] != "--interval" && c[0] != "--output-format";
      assert c[2..] == [];
      assert Scan(o, c, stod) == Scan(o.(file := opts.file), [], stod);
    }
  }

  /**
    Parsing is the inverse of rendering: whenever `stod` reads back what
    `show` prints, the rendered arguments parse to the same options (an
    output file may even start with '-').
  */
  lemma ParseRender(opts: Options, show: real -> string, stod: string -> Option<real>)
    requires Renderable(opts)
    requires opts.interval.Some? ==> stod(show(opts.interval.value)) == opts.interval
    ensures ParseArguments(Render(opts, show), stod) == Ok(opts)
  {
    var o1 := NoOptions.(interval := opts.interval);
    var o2 := o1.(format := opts.format);
    var o3 := o2.(file := opts.file);
    ScanRenderInterval(NoOptions, opts, show, stod);
    ScanCompose(NoOptions, RenderInterval(opts, show), RenderFormat(opts) + (RenderFile(opts) + opts.hosts), stod);
    ScanRenderFormat(o1, opts, stod);
    ScanCompose(o1, RenderFormat(opts), RenderFile(opts) + opts.hosts, stod);
    ScanRenderFile(o2, opts, stod);
    ScanCompose(o2, RenderFile(opts), opts.hosts, stod);
    PlainArgumentsAreHosts(o3, opts.hosts, stod);
    assert o3.(hosts := o3.hosts + opts.hosts) == opts;
  }

  // ---------------------------------------------------------------------
  // Decisions of `run`

  /** The per-host configuration `run` builds; the bucket boundaries are never filled in. */
  datatype TargetConfig = TargetConfig(
    host: string,
    interval: Option<real>,
    format: Option<OutputFormat>,
    file: Option<string>,
    boundaries: seq<real>)

  /** What `run` goes on to do once the arguments are understood. */
  datatype Launch = Launch(targets: seq<TargetConfig>, exportEnabled: bool, exportPath: string)

  /**
    How `run` ends: an exit code before any session starts, or running
    sessions, which end with exit code 0, or 1 when the final CSV write
    throws.
  */
  datatype RunOutcome = Exit(code: int) | Running(launch: Launch, code: int)

  /** The format exports use: the explicit one, else Csv when an output file is named. */
  function EffectiveFormat(opts: Options): (f: Option<OutputFormat>)
    ensures opts.format.Some? ==> f == opts.format
    ensures opts.format.None? ==> (f.Some? <==> opts.file.Some?) && (f.Some? ==> f.value == Csv)
  {
    if opts.format.None? && opts.file.Some? then Some(Csv) else opts.format
  }

  function TargetsFor(opts: Options): (ts: seq<TargetConfig>)
    ensures |ts| == |opts.hosts|
    ensures forall i :: 0 <= i < |ts| ==> ts[i] == TargetConfig(
      opts.hosts[i], Some(opts.interval.GetOr(DefaultIntervalSeconds)), EffectiveFormat(opts), opts.file, [])
  {
    seq(|opts.hosts|, i requires 0 <= i < |opts.hosts| =>
      TargetConfig(opts.hosts[i], Some(opts.interval.GetOr(DefaultIntervalSeconds)), EffectiveFormat(opts), opts.file, []))
  }

  /**
    `run`: a thrown parse error exits with 1, help and version with 0, no
    hosts with 2; otherwise every host becomes a target sharing one
    interval, and if any backend fails to initialize (`backendsOk` false)
    the run exits with 1.  Once the sessions are stopped, a Csv export
    appends one last snapshot; `finalWriteOk` is false when that append
    throws because the file cannot be opened, which makes the exit code 1.
    The periodic exporter catches the same error and only reports it.
  */
  function Run(args: seq<string>, stod: string -> Option<real>, backendsOk: bool, finalWriteOk: bool): (r: RunOutcome)
    ensures ParseArguments(args, stod).Err? ==> r == Exit(1)
    ensures r.Running? <==>
      ParseArguments(args, stod).Ok? && !Stopped(ParseArguments(args, stod).value) &&
      ParseArguments(args, stod).value.hosts != [] && backendsOk
    ensures r.Running? ==> (r.code == 1 <==> r.launch.exportEnabled && !finalWriteOk)
  {
    match ParseArguments(args, stod)
    case Err(_) => Exit(1)
    case Ok(opts) =>
      if opts.showHelp || opts.showVersion then Exit(0)
      else if opts.hosts == [] then Exit(2)
      else if !backendsOk then Exit(1)
      else
        var launch := Launch(TargetsFor(opts), EffectiveFormat(opts) == Some(Csv), opts.file.GetOr(DefaultExportPath));
        Running(launch, if launch.exportEnabled && !finalWriteOk then 1 else 0)
  }

  /** Exit code 2 means exactly that the arguments parsed, asked for nothing special, and named no host. */
  lemma ExitTwoIffNoHosts(args: seq<string>, stod: string -> Option<real>, backendsOk: bool, finalWriteOk: bool)
    ensures Run(args, stod, backendsOk, finalWriteOk).code == 2 <==>
      ParseArguments(args, stod).Ok? && !Stopped(ParseArguments(args, stod).value) &&
      ParseArguments(args, stod).value.hosts == []
  {
  }

  /**
    Exit code 0 means help, version or a normal run; exit code 1 means
    something threw: the parser, a backend's initialization, or the final
    Csv append.
  */
  lemma ExitCodes(args: seq<string>, stod: string -> Option<real>, backendsOk: bool, finalWriteOk: bool)
    ensures var code := Run(args, stod, backendsOk, finalWriteOk).code;
      code in {0, 1, 2} &&
      (code == 1 <==>
        (ParseArguments(args, stod).Err? ||
         (!Stopped(ParseArguments(args, stod).value) && ParseArguments(args, stod).value.hosts != [] &&
          (!backendsOk || (EffectiveFormat(ParseArguments(args, stod).value) == Some(Csv) && !finalWriteOk)))))
  {
  }

  /**
    A running launch has one target per host, in order, each with the
    same positive interval (1 second by default); exporting is on only
    for Csv, so JSON is never written, and it goes to the named file or
    "pingstats.csv".
  */
  lemma LaunchShape(args: seq<string>, stod: string -> Option<real>, backendsOk: bool, finalWriteOk: bool)
    requires Run(args, stod, backendsOk, finalWriteOk).Running?
    ensures var opts := ParseArguments(args, stod).value;
      var launch := Run(args, stod, backendsOk, finalWriteOk).launch;
      && |launch.targets| == |opts.hosts|
      && (forall i :: 0 <= i < |launch.targets| ==> launch.targets[i].host == opts.hosts[i])
      && (forall i :: 0 <= i < |launch.targets| ==>
            launch.targets[i].interval == Some(opts.interval.GetOr(DefaultIntervalSeconds)))
      && (forall i :: 0 <= i < |launch.targets| ==> launch.targets[i].interval.value > 0.0)
      && (launch.exportEnabled <==> opts.format == Some(Csv) || (opts.format.None? && opts.file.Some?))
      && (opts.format == Some(Json) ==> !launch.exportEnabled)
      && launch.exportPath == opts.file.GetOr(DefaultExportPath)
  {
    IntervalPositive(NoOptions, args, stod);
  }

  /** Every interval the scanner stores is positive. */
  lemma {:induction false} IntervalPositive(opts: Options, args: seq<string>, stod: string -> Option<real>)
    requires opts.interval.Some? ==> opts.interval.value > 0.0
    ensures var r := Scan(opts, args, stod);
      r.Ok? && r.value.interval.Some? ==> r.value.interval.value > 0.0
    decreases |args|
  {
    if args != [] {
      var arg := args[0];
      if arg == "-h" || arg == "--help" || arg == "--version" {
      } else if arg == "-i" || arg == "--interval" {
        if |args| >= 2 && stod(args[1]).Some? && stod(args[1]).value > 0.0 {
          IntervalPositive(opts.(interval := stod(args[1])), args[2..], stod);
        }
      } else if arg == "--output-format" {
        if |args| >= 2 && ParseOutputFormat(args[1]).Ok? {
          IntervalPositive(opts.(format := Some(ParseOutputFormat(args[1]).value)), args[2..], stod);
        }
      } else if arg == "--output-file" {
        if |args| >= 2 {
          IntervalPositive(opts.(file := Some(args[1])), args[2..], stod);
        }
      } else if !LooksLikeOption(arg) {
        IntervalPositive(opts.(hosts := opts.hosts + [arg]), args[1..], stod);
      }
    }
  }
}
