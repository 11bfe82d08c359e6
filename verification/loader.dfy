/** The post-specialization hook of the Zygisk loader module
    (`ZygiskLoaderModule::post_app_specialize` and its helpers in
    module/rust/src/lib.rs).  After the host has specialized a freshly forked
    app process, the hook reads the process name from /proc/self/cmdline,
    reads the target package from the configuration file, and, when the
    name contains the target, asks the dynamic loader to load the payload
    library once.

    The file system and the dynamic loader are not modelled: what the two
    reads return and what `dlopen`/`dlerror` answer are the fields of an
    `Env`, and the hook's calls into them are recorded, in order, as a list
    of `Effect`s so that their order and number can be stated. */
module Loader {
  import opened Results
  import opened Utf8
  import opened Text

  const CMDLINE_PATH: string := "/proc/self/cmdline"
  const CONFIG_PATH: string := "/data/adb/modules/zygisk-loader/active_config.txt"
  const PAYLOAD_PATH: string := "/data/adb/modules/zygisk-loader/payload.so"

  /** The `dlopen` mode flags the hook passes.  `libc::RTLD_NOW` is 2 on
      64-bit Android and on Linux but 0 on 32-bit Android, so the flag is
      kept symbolic rather than given one number. */
  datatype DlopenFlag = RtldNow

  const NUL: byte := 0x00
  const LF: byte := 0x0A

  // ---------------------------------------------------------------------
  // get_process_name

  /** The first item of `buffer.split(|&c| c == 0)`: the bytes before the
      first NUL, or the whole buffer when it has none.  The split always has
      a first item, so `next()` never comes back empty. */
  function FirstSegment(buffer: seq<byte>): (seg: seq<byte>)
    ensures seg <= buffer
    ensures NUL !in seg
    ensures |seg| < |buffer| ==> buffer[|seg|] == NUL
    decreases |buffer|
  {
    if buffer == [] || buffer[0] == NUL then []
    else [buffer[0]] + FirstSegment(buffer[1..])
  }

  /** The name `get_process_name` makes of the contents of /proc/self/cmdline:
      the first segment decoded as UTF-8, or the empty string when that
      segment is not UTF-8 (`.ok()` then `unwrap_or_default()`). */
  function ProcessName(buffer: seq<byte>): (name: string)
    ensures '\0' !in name
  {
    var seg := FirstSegment(buffer);
    match Decode(seg)
    case Some(s) => DecodedNul(seg); s
    case None => []
  }

  /** `get_process_name`: fails only when the file cannot be opened or read. */
  function GetProcessName(cmdline: IoResult<seq<byte>>): (r: IoResult<string>)
    ensures r.Ok? <==> cmdline.Ok?
    ensures r.Err? ==> r.error == cmdline.error
    ensures r.Ok? ==> '\0' !in r.value
  {
    match cmdline
    case Err(e) => Err(e)
    case Ok(buffer) => Ok(ProcessName(buffer))
  }

  /** Any prefix of the buffer that stops at its first NUL, or at its end, is
      the first segment. */
  lemma {:induction false} FirstSegmentUnique(buffer: seq<byte>, p: seq<byte>)
    requires p <= buffer && NUL !in p
    requires |p| < |buffer| ==> buffer[|p|] == NUL
    ensures FirstSegment(buffer) == p
    decreases |buffer|
  {
    if p != [] {
      assert buffer[0] == p[0];
      FirstSegmentUnique(buffer[1..], p[1..]);
    }
  }

  /** The process name is decoded from exactly the bytes before the first NUL;
      when those bytes are not UTF-8 the name is empty. */
  lemma ProcessNameBeforeNul(buffer: seq<byte>, p: seq<byte>)
    requires p <= buffer && NUL !in p
    requires |p| < |buffer| ==> buffer[|p|] == NUL
    ensures IsValid(p) ==> ProcessName(buffer) == Decode(p).value
    ensures !IsValid(p) ==> ProcessName(buffer) == []
  {
    FirstSegmentUnique(buffer, p);
  }

  /** A non-empty process name, encoded again, is a prefix of the buffer
      that ends at the first NUL or at the end of the buffer. */
  lemma ProcessNameBytes(buffer: seq<byte>)
    requires ProcessName(buffer) != []
    ensures Encode(ProcessName(buffer)) <= buffer
    ensures NUL !in Encode(ProcessName(buffer))
    ensures var n := |Encode(ProcessName(buffer))|; n < |buffer| ==> buffer[n] == NUL
  {
    EncodeDecode(FirstSegment(buffer));
  }

  /** The kernel lays out argv as NUL-terminated strings; the process name is
      argv[0], whatever follows it. */
  lemma ProcessNameOfArgv(arg0: string, rest: seq<byte>)
    requires '\0' !in arg0
    ensures ProcessName(Encode(arg0) + [NUL] + rest) == arg0
  {
    var e := Encode(arg0);
    AsciiInEncode(arg0, '\0');
    FirstSegmentUnique(e + [NUL] + rest, e);
    DecodeEncode(arg0);
  }

  /** A buffer without any NUL is decoded whole. */
  lemma ProcessNameWithoutNul(arg0: string)
    requires '\0' !in arg0
    ensures ProcessName(Encode(arg0)) == arg0
  {
    AsciiInEncode(arg0, '\0');
    FirstSegmentUnique(Encode(arg0), Encode(arg0));
    DecodeEncode(arg0);
  }

  // ---------------------------------------------------------------------
  // read_target_config

  /** What `BufReader::read_line` appends to an empty line: the bytes up to
      and including the first newline, or everything when there is none. */
  function FirstLine(content: seq<byte>): (line: seq<byte>)
    ensures line <= content
    ensures forall k :: 0 <= k < |line| - 1 ==> line[k] != LF
    ensures |line| == |content| || (|line| > 0 && line[|line| - 1] == LF)
    decreases |content|
  {
    if content == [] then []
    else if content[0] == LF then [LF]
    else [content[0]] + FirstLine(content[1..])
  }

  /** A newline ends the first line, whatever follows it. */
  lemma {:induction false} FirstLineThroughNewline(q: seq<byte>, rest: seq<byte>)
    requires LF !in q
    ensures FirstLine(q + [LF] + rest) == q + [LF]
    decreases |q|
  {
    if q != [] {
      assert (q + [LF] + rest)[1..] == q[1..] + [LF] + rest;
      FirstLineThroughNewline(q[1..], rest);
      assert [q[0]] + (q[1..] + [LF]) == q + [LF];
    }
  }

  /** Without a newline the first line is the whole content. */
  lemma {:induction false} FirstLineWithoutNewline(q: seq<byte>)
    requires LF !in q
    ensures FirstLine(q) == q
    decreases |q|
  {
    if q != [] {
      FirstLineWithoutNewline(q[1..]);
      assert [q[0]] + q[1..] == q;
    }
  }

  /** A decoded first line has a newline at most as its last character, and
      trimming removes that one. */
  lemma LineTextNewline(line: seq<byte>, text: string)
    requires forall k :: 0 <= k < |line| - 1 ==> line[k] != LF
    requires Decode(line) == Some(text)
    ensures '\n' !in Trim(text)
  {
    EncodeDecode(line);
    EncodedLineNewline(text);
  }

  /** The same, stated of the text whose encoding is the line. */
  lemma EncodedLineNewline(text: string)
    requires forall k :: 0 <= k < |Encode(text)| - 1 ==> Encode(text)[k] != LF
    ensures '\n' !in Trim(text)
  {
    var line := Encode(text);
    if |line| > 0 && line[|line| - 1] == LF {
      assert LF !in line[..|line| - 1];
      TrailingNewlineTrimmed(text);
    } else {
      assert LF !in line;
      AsciiInEncode(text, '\n');
      NewlineFreeTrim(text);
    }
  }

  /** A text whose encoding ends in its only LF loses that newline to `trim`. */
  lemma TrailingNewlineTrimmed(text: string)
    requires |Encode(text)| > 0 && Encode(text)[|Encode(text)| - 1] == LF
    requires LF !in Encode(text)[..|Encode(text)| - 1]
    ensures '\n' !in Trim(text)
  {
    EncodeEndsWithAscii(text, '\n');
    var body := text[..|text| - 1];
    AsciiInEncode(body, '\n');
    assert text == body + ['\n'];
    TrimDropsTrailing(body, '\n');
    NewlineFreeTrim(body);
  }

  lemma NewlineFreeTrim(s: string)
    requires '\n' !in s
    ensures '\n' !in Trim(s)
  {
    if '\n' in Trim(s) {
      TrimKeeps(s, '\n');
    }
  }

  /** `read_target_config`: the first line of the configuration file with
      surrounding whitespace removed.  Besides the open and read failures
      the file system reports, `read_line` fails with `InvalidData` when
      the first line is not UTF-8. */
  function ReadTargetConfig(config: IoResult<seq<byte>>): (r: IoResult<string>)
    ensures r.Ok? ==> '\n' !in r.value && Trimmed(r.value)
    ensures config.Err? ==> r == Err(config.error)
    ensures config.Ok? && r.Err? ==> r.error == InvalidData
    ensures config.Ok? ==> (r.Ok? <==> IsValid(FirstLine(config.value)))
  {
    match config
    case Err(e) => Err(e)
    case Ok(content) =>
      var line := FirstLine(content);
      match Decode(line)
      case None => Err(InvalidData)
      case Some(text) => LineTextNewline(line, text); Ok(Trim(text))
  }

  /** A configuration file written as one line and a newline yields that
      line, trimmed; nothing after the newline is read. */
  lemma ReadTargetConfigOfLine(target: string, rest: seq<byte>)
    requires '\n' !in target
    ensures ReadTargetConfig(Ok(Encode(target + "\n") + rest)) == Ok(Trim(target))
  {
    var e := Encode(target);
    EncodeAppend(target, "\n");
    assert Encode("\n") == [LF];
    AsciiInEncode(target, '\n');
    FirstLineThroughNewline(e, rest);
    DecodeEncode(target + "\n");
    TrimDropsTrailing(target, '\n');
  }

  /** A configuration file without a trailing newline is read whole. */
  lemma ReadTargetConfigWithoutNewline(target: string)
    requires '\n' !in target
    ensures ReadTargetConfig(Ok(Encode(target))) == Ok(Trim(target))
  {
    AsciiInEncode(target, '\n');
    FirstLineWithoutNewline(Encode(target));
    DecodeEncode(target);
  }

  /** The value is already trimmed, so the second `trim()` applied before
      matching changes nothing. */
  lemma RetrimIsNoop(config: IoResult<seq<byte>>)
    requires ReadTargetConfig(config).Ok?
    ensures Trim(ReadTargetConfig(config).value) == ReadTargetConfig(config).value
  {
    var text := Decode(FirstLine(config.value)).value;
    TrimIdempotent(text);
  }

  // ---------------------------------------------------------------------
  // The match decision

  /** `current_process.contains(target_package.trim())` */
  function IsTarget(process: string, target: string): (m: bool)
    ensures m <==> IsSubstring(Trim(target), process)
  {
    Contains(process, Trim(target))
  }

  /** `str::contains` searches the UTF-8 bytes of the name for the bytes of
      the target; on valid strings that is the same as the character-level
      test `IsTarget` makes. */
  lemma IsTargetMatchesBytes(process: string, target: string)
    ensures IsTarget(process, target) <==> IsSubstring(Encode(Trim(target)), Encode(process))
  {
    SubstringOfEncodings(Trim(target), process);
  }

  /** A blank target is contained in every process name. */
  lemma BlankTargetMatchesAll(process: string, target: string)
    requires AllWhitespace(target)
    ensures IsTarget(process, target)
  {
    TrimEmptyIff(target);
    ContainsEmpty(process);
  }

  /** The empty name, which an undecodable cmdline yields, matches only a
      blank target. */
  lemma EmptyNameMatchesOnlyBlank(target: string)
    ensures IsTarget([], target) <==> AllWhitespace(target)
  {
    TrimEmptyIff(target);
    EmptyContains(Trim(target));
  }

  // ---------------------------------------------------------------------
  // inject_payload

  /** The two files the hook reads. */
  datatype InputFile = ProcCmdline | TargetConfig {
    function Path(): string {
      match this
      case ProcCmdline => CMDLINE_PATH
      case TargetConfig => CONFIG_PATH
    }
  }

  /** A call the hook makes into the system, in the order it makes them. */
  datatype Effect =
    | ReadFile(file: InputFile)
    | Dlopen(path: string, flag: DlopenFlag)
    | Dlerror

  /** What `libc::dlopen` returns (0 is the null handle) and what
      `libc::dlerror` would return afterwards (`None` is a null pointer). */
  datatype DlopenReply = DlopenReply(handle: nat, error: Option<string>)

  datatype LoadStatus = Loaded(handle: nat) | LoadFailed(message: string)

  datatype Injection = Injection(status: LoadStatus, effects: seq<Effect>)

  /** The message logged when the loader returns a null handle. */
  function LoadFailureMessage(error: Option<string>): string {
    "Fail Load Payload: " + match error case Some(m) => m case None => "Unknown error"
  }

  /** How many load attempts a list of effects holds. */
  function CountLoads(effects: seq<Effect>): nat
    decreases |effects|
  {
    if effects == [] then 0
    else (if effects[0].Dlopen? then 1 else 0) + CountLoads(effects[1..])
  }

  lemma {:induction false} CountLoadsAppend(a: seq<Effect>, b: seq<Effect>)
    ensures CountLoads(a + b) == CountLoads(a) + CountLoads(b)
    decreases |a|
  {
    if a == [] {
      assert a + b == b;
    } else {
      assert (a + b)[1..] == a[1..] + b;
      CountLoadsAppend(a[1..], b);
    }
  }

  /** A list without load attempts counts none. */
  lemma {:induction false} CountLoadsNone(effects: seq<Effect>)
    requires forall k :: 0 <= k < |effects| ==> !effects[k].Dlopen?
    ensures CountLoads(effects) == 0
    decreases |effects|
  {
    if effects != [] {
      CountLoadsNone(effects[1..]);
    }
  }

  /** `CString::new(PAYLOAD_PATH)` cannot fail. */
  lemma PayloadPathHasNoNul()
    ensures '\0' !in PAYLOAD_PATH
  {
  }

  /** `inject_payload`: one `dlopen` of `path` with `RTLD_NOW`; a null handle
      is the failure path, which consults `dlerror` and only logs.  The path
      must hold no NUL, or `CString::new(path).unwrap()` panics. */
  function InjectPayload(path: string, reply: DlopenReply): (r: Injection)
    requires '\0' !in path
    ensures CountLoads(r.effects) == 1
    ensures |r.effects| >= 1 && r.effects[0] == Dlopen(path, RtldNow)
    ensures r.status.Loaded? <==> reply.handle != 0
    ensures r.status.Loaded? ==> r.status.handle == reply.handle
    ensures Dlerror in r.effects <==> r.status.LoadFailed?
  {
    if reply.handle == 0 then
      var effects := [Dlopen(path, RtldNow), Dlerror];
      assert effects[1..] == [Dlerror] && [Dlerror][1..] == [];
      Injection(LoadFailed(LoadFailureMessage(reply.error)), effects)
    else
      Injection(Loaded(reply.handle), [Dlopen(path, RtldNow)])
  }

  // ---------------------------------------------------------------------
  // post_app_specialize

  /** Everything the hook learns from outside: the contents of
      /proc/self/cmdline, the contents of the configuration file, and the
      dynamic loader's answer. */
  datatype Env = Env(cmdline: IoResult<seq<byte>>, config: IoResult<seq<byte>>, dlopen: DlopenReply)

  datatype Outcome =
    | NameReadFailed(error: IoError)
    | ConfigReadFailed(error: IoError)
    | NoMatch(process: string, target: string)
    | Inject(path: string, status: LoadStatus)

  datatype Run = Run(outcome: Outcome, effects: seq<Effect>)

  /** The control flow of `ZygiskLoaderModule::post_app_specialize`, given
      what its two helpers return: stop when the name cannot be read, stop
      when the target cannot be read, otherwise load the payload if and only
      if the name contains the target. */
  function Specialize(name: IoResult<string>, target: IoResult<string>, reply: DlopenReply): (run: Run)
    ensures |run.effects| >= 1 && run.effects[0] == ReadFile(ProcCmdline)
    ensures name.Err? ==> run == Run(NameReadFailed(name.error), [ReadFile(ProcCmdline)])
    ensures ReadFile(TargetConfig) in run.effects <==> name.Ok?
    ensures name.Ok? ==> |run.effects| >= 2 && run.effects[1] == ReadFile(TargetConfig)
    ensures name.Ok? && target.Err? ==> run == Run(ConfigReadFailed(target.error), [ReadFile(ProcCmdline), ReadFile(TargetConfig)])
    ensures run.outcome.Inject? <==> name.Ok? && target.Ok? && IsTarget(name.value, target.value)
    ensures run.outcome.Inject? <==> CountLoads(run.effects) == 1
    ensures CountLoads(run.effects) <= 1
    ensures forall e :: e in run.effects && e.Dlopen? ==> e == Dlopen(PAYLOAD_PATH, RtldNow)
    ensures run.outcome.Inject? ==> run.outcome.path == PAYLOAD_PATH
  {
    var fileReads := [ReadFile(ProcCmdline), ReadFile(TargetConfig)];
    CountLoadsNone(fileReads);
    CountLoadsNone([ReadFile(ProcCmdline)]);
    match name
    case Err(e) => Run(NameReadFailed(e), [ReadFile(ProcCmdline)])
    case Ok(process) =>
      match target
      case Err(e) => Run(ConfigReadFailed(e), fileReads)
      case Ok(target) =>
        if IsTarget(process, target) then
          PayloadPathHasNoNul();
          var injection := InjectPayload(PAYLOAD_PATH, reply);
          CountLoadsAppend(fileReads, injection.effects);
          Run(Inject(PAYLOAD_PATH, injection.status), fileReads + injection.effects)
        else
          Run(NoMatch(process, target), fileReads)
  }

  /** `ZygiskLoaderModule::post_app_specialize` */
  function PostAppSpecialize(env: Env): (run: Run)
    ensures env.cmdline.Err? ==> run == Run(NameReadFailed(env.cmdline.error), [ReadFile(ProcCmdline)])
    ensures ReadFile(TargetConfig) in run.effects <==> env.cmdline.Ok?
    ensures CountLoads(run.effects) <= 1
    ensures forall e :: e in run.effects && e.Dlopen? ==> e == Dlopen(PAYLOAD_PATH, RtldNow)
  {
    Specialize(GetProcessName(env.cmdline), ReadTargetConfig(env.config), env.dlopen)
  }

  // ---------------------------------------------------------------------
  // Properties of the hook

  /** When a load is due, stated from the inputs alone: both reads succeed,
      the first line of the configuration is UTF-8, and the process name
      contains that line with its surrounding whitespace removed. */
  ghost predicate LoadIsDue(env: Env) {
    && env.cmdline.Ok?
    && env.config.Ok?
    && IsValid(FirstLine(env.config.value))
    && IsSubstring(Trim(Decode(FirstLine(env.config.value)).value), ProcessName(env.cmdline.value))
  }

  /** The payload is loaded exactly when a load is due, and then exactly once. */
  lemma LoadAttemptedIff(env: Env)
    ensures CountLoads(PostAppSpecialize(env).effects) == 1 <==> LoadIsDue(env)
    ensures PostAppSpecialize(env).outcome.Inject? <==> LoadIsDue(env)
  {
    var name := GetProcessName(env.cmdline);
    var target := ReadTargetConfig(env.config);
    assert PostAppSpecialize(env) == Specialize(name, target, env.dlopen);
    if name.Ok? && target.Ok? {
      RetrimIsNoop(env.config);
      assert target.value == Trim(Decode(FirstLine(env.config.value)).value);
    }
  }

  /** A configuration whose first line is blank, the empty file among them,
      selects every process whose cmdline can be read. */
  lemma BlankConfigMatchesEveryProcess(env: Env)
    requires env.cmdline.Ok? && env.config.Ok?
    requires IsValid(FirstLine(env.config.value))
    requires AllWhitespace(Decode(FirstLine(env.config.value)).value)
    ensures PostAppSpecialize(env).outcome.Inject?
  {
    var target := ReadTargetConfig(env.config).value;
    TrimEmptyIff(Decode(FirstLine(env.config.value)).value);
    BlankTargetMatchesAll(ProcessName(env.cmdline.value), target);
  }

  /** An empty configuration file is read as the empty target. */
  lemma EmptyConfigMatchesEveryProcess(env: Env)
    requires env.cmdline.Ok? && env.config == Ok([])
    ensures PostAppSpecialize(env).outcome.Inject?
  {
    BlankConfigMatchesEveryProcess(env);
  }

  /** A configuration file whose first line is not UTF-8 ends the hook after
      the two reads, before any match or load. */
  lemma InvalidConfigStopsBeforeMatch(env: Env)
    requires env.cmdline.Ok? && env.config.Ok?
    requires !IsValid(FirstLine(env.config.value))
    ensures PostAppSpecialize(env) == Run(ConfigReadFailed(InvalidData), [ReadFile(ProcCmdline), ReadFile(TargetConfig)])
  {
  }

  /** When a load is due the hook makes exactly one `dlopen` call, of the
      payload, after the two reads; a null handle adds only the `dlerror`
      call for the log message, and nothing is retried. */
  lemma DueLoadRun(env: Env)
    requires LoadIsDue(env)
    ensures env.dlopen.handle == 0 ==>
              PostAppSpecialize(env) == Run(Inject(PAYLOAD_PATH, LoadFailed(LoadFailureMessage(env.dlopen.error))),
                                            [ReadFile(ProcCmdline), ReadFile(TargetConfig), Dlopen(PAYLOAD_PATH, RtldNow), Dlerror])
    ensures env.dlopen.handle != 0 ==>
              PostAppSpecialize(env) == Run(Inject(PAYLOAD_PATH, Loaded(env.dlopen.handle)),
                                            [ReadFile(ProcCmdline), ReadFile(TargetConfig), Dlopen(PAYLOAD_PATH, RtldNow)])
  {
    LoadAttemptedIff(env);
    SpecializeLoad(GetProcessName(env.cmdline), ReadTargetConfig(env.config), env.dlopen);
  }

  lemma SpecializeLoad(name: IoResult<string>, target: IoResult<string>, reply: DlopenReply)
    requires Specialize(name, target, reply).outcome.Inject?
    ensures reply.handle == 0 ==>
              Specialize(name, target, reply) == Run(Inject(PAYLOAD_PATH, LoadFailed(LoadFailureMessage(reply.error))),
                                                     [ReadFile(ProcCmdline), ReadFile(TargetConfig), Dlopen(PAYLOAD_PATH, RtldNow), Dlerror])
    ensures reply.handle != 0 ==>
              Specialize(name, target, reply) == Run(Inject(PAYLOAD_PATH, Loaded(reply.handle)),
                                                     [ReadFile(ProcCmdline), ReadFile(TargetConfig), Dlopen(PAYLOAD_PATH, RtldNow)])
  {
  }

  /** The paths of the files a list of effects reads, in order. */
  function ReadPaths(effects: seq<Effect>): seq<string>
    decreases |effects|
  {
    if effects == [] then []
    else (if effects[0].ReadFile? then [effects[0].file.Path()] else []) + ReadPaths(effects[1..])
  }

  lemma {:induction false} ReadPathsAppend(a: seq<Effect>, b: seq<Effect>)
    ensures ReadPaths(a + b) == ReadPaths(a) + ReadPaths(b)
    decreases |a|
  {
    if a == [] {
      assert a + b == b;
    } else {
      assert (a + b)[1..] == a[1..] + b;
      ReadPathsAppend(a[1..], b);
    }
  }

  /** The hook reads /proc/self/cmdline and then, only when that read
      succeeded, the configuration file; it reads nothing else. */
  lemma HookReadPaths(env: Env)
    ensures ReadPaths(PostAppSpecialize(env).effects) ==
            if env.cmdline.Ok? then [CMDLINE_PATH, CONFIG_PATH] else [CMDLINE_PATH]
  {
    var name := GetProcessName(env.cmdline);
    assert PostAppSpecialize(env) == Specialize(name, ReadTargetConfig(env.config), env.dlopen);
    SpecializeReadPaths(name, ReadTargetConfig(env.config), env.dlopen);
  }

  lemma SpecializeReadPaths(name: IoResult<string>, target: IoResult<string>, reply: DlopenReply)
    ensures ReadPaths(Specialize(name, target, reply).effects) ==
            if name.Ok? then [CMDLINE_PATH, CONFIG_PATH] else [CMDLINE_PATH]
  {
    var run := Specialize(name, target, reply);
    var fileReads := [ReadFile(ProcCmdline), ReadFile(TargetConfig)];
    assert ReadPaths([ReadFile(ProcCmdline)]) == [CMDLINE_PATH];
    assert ReadPaths(fileReads) == [CMDLINE_PATH, CONFIG_PATH] by {
      assert fileReads[1..] == [ReadFile(TargetConfig)];
      assert [ReadFile(TargetConfig)][1..] == [];
    }
    if run.outcome.Inject? {
      var injection := InjectPayload(PAYLOAD_PATH, reply);
      assert run.effects == fileReads + injection.effects;
      ReadPathsAppend(fileReads, injection.effects);
      InjectionReadsNothing(injection.effects);
    } else if name.Ok? && target.Ok? {
      assert run.effects == fileReads;
    }
  }

  /** `inject_payload` reads no file. */
  lemma InjectionReadsNothing(effects: seq<Effect>)
    requires effects == [Dlopen(PAYLOAD_PATH, RtldNow)] || effects == [Dlopen(PAYLOAD_PATH, RtldNow), Dlerror]
    ensures ReadPaths(effects) == []
  {
    var rest := effects[1..];
    if |effects| == 2 {
      assert rest == [Dlerror] && rest[1..] == [];
      assert ReadPaths(rest) == [];
    } else {
      assert rest == [];
    }
  }

  /** A process whose cmdline does not begin with UTF-8 is named "" and is
      selected only by a blank target. */
  lemma UndecodableNameMatchesOnlyBlank(env: Env)
    requires env.cmdline.Ok? && !IsValid(FirstSegment(env.cmdline.value))
    requires ReadTargetConfig(env.config).Ok?
    ensures PostAppSpecialize(env).outcome.Inject? <==> ReadTargetConfig(env.config).value == []
  {
    var target := ReadTargetConfig(env.config).value;
    EmptyNameMatchesOnlyBlank(target);
    RetrimIsNoop(env.config);
    TrimEmptyIff(target);
  }

  /** A process is selected when argv[0] contains the first line of the
      configuration file, trimmed. */
  lemma SelectedWhenNameContainsTarget(arg0: string, args: seq<byte>, target: string, rest: seq<byte>, reply: DlopenReply)
    requires '\0' !in arg0 && '\n' !in target
    requires IsSubstring(Trim(target), arg0)
    ensures PostAppSpecialize(Env(Ok(Encode(arg0) + [NUL] + args), Ok(Encode(target + "\n") + rest), reply)).outcome.Inject?
  {
    ProcessNameOfArgv(arg0, args);
    ReadTargetConfigOfLine(target, rest);
    TrimIdempotent(target);
  }

  /** A service process of the configured package is selected: the target
      "com.example.app" is contained in "com.example.app:remote". */
  lemma ServiceProcessMatches()
    ensures IsTarget("com.example.app:remote", "com.example.app")
  {
    var name := "com.example.app:remote";
    var target := "com.example.app";
    assert Trimmed(target);
    TrimOfTrimmed(target);
    assert OccursAt(target, name, 0);
  }
}
