# Zygisk loader: target matching and payload loading, in Dafny

This project models the post-specialization hook of the Zygisk loader module
(`module/rust/src/lib.rs`). Zygisk forks a new app process and specializes it
into the app's sandbox. It then calls `ZygiskLoaderModule::post_app_specialize`,
and the hook does three things in order:

1. `get_process_name` reads `/proc/self/cmdline` and keeps the bytes before the
   first NUL. If they are valid UTF-8 they become the process name; otherwise
   the name is the empty string.
2. `read_target_config` reads the first line of
   `/data/adb/modules/zygisk-loader/active_config.txt` and trims it.
3. If the process name contains the target (trimmed once more), the hook calls
   `inject_payload`. That helper makes one `dlopen(PAYLOAD_PATH, RTLD_NOW)` call.
   When the handle is null, it asks `dlerror` for a message and logs it.

A failed read of either file ends the hook early. No error ever reaches the host.

The files:

- `results.dfy` (`Results`): `Option`, the `std::io::Error` kinds the hook can
  see, and `IoResult`.
- `utf8.dfy` (`Utf8`): a validating UTF-8 decoder (`Decode`) and its inverse
  (`Encode`).
  - The decoder accepts exactly the well-formed sequences of Table 3-7 of the
    Unicode Standard. That is what `String::from_utf8` and `read_line` accept.
  - It is proved to be a bijection with `Encode`.
  - It is proved self-synchronizing, so byte-level and character-level
    substring search agree.
- `text.dfy` (`Text`): `str::trim`, with `char::is_whitespace` written out as
  the Unicode White_Space table. Also `str::contains`.
- `loader.dfy` (`Loader`): the hook and its helpers.
  - The file contents and the loader's answer come in as an `Env`.
  - The hook returns an `Outcome`: `NameReadFailed`, `ConfigReadFailed`,
    `NoMatch` or `Inject(path, status)`.
  - It also returns the list of calls it made into the system (`Effect`s: the
    two file reads, `dlopen`, `dlerror`). This makes order and count statable.

Two behaviours of the code, which the model keeps:

- **An empty or blank target matches every process.** This includes a config
  file that exists but is empty. `"".contains("")` is true for every name
  (`BlankConfigMatchesEveryProcess`, `EmptyConfigMatchesEveryProcess`).
  Nothing in the code treats an empty target specially (lib.rs:70).
- **A first config line that is not UTF-8 fails the read.** `read_line`
  rejects it with `InvalidData`, so the hook stops before matching. Lines after
  the first are never looked at.

The hook has no buffering step, no staging file and no cleanup, and it keeps
no state between calls. It identifies the process by its cmdline alone, and
it loads straight from the fixed `PAYLOAD_PATH` (lib.rs:75, lib.rs:109).

## Model

| member | source | states |
|---|---|---|
| `Utf8.DecodeIff` | module/rust/src/lib.rs:90 | `from_utf8` succeeds on a byte string exactly when it is the UTF-8 encoding of some string, and then returns that string (decode and encode are inverse bijections) |
| `Utf8.DecodeEncode` | module/rust/src/lib.rs:90 | decoding the encoding of any string gives the string back |
| `Utf8.EncodeDecode` | module/rust/src/lib.rs:90 | whatever decodes was the encoding of its result; there is one UTF-8 form per string |
| `Utf8.DecodedNul` | module/rust/src/lib.rs:88-90 | a decoded string holds U+0000 exactly when its bytes hold 0x00 |
| `Utf8.AsciiInEncode` | module/rust/src/lib.rs:88-90 | an ASCII character occurs in a string exactly when its byte occurs in the encoding |
| `Utf8.SubstringOfEncodings` | module/rust/src/lib.rs:70 | one string occurs in another exactly when its UTF-8 bytes occur in the other's bytes, so byte search and character search agree |
| `Text.Trim` | module/rust/src/lib.rs:103 | `trim` removes an all-whitespace prefix and suffix, and the result has no whitespace at either end |
| `Text.TrimUnique` | module/rust/src/lib.rs:103 | that description fits exactly one string, the result of `trim` |
| `Text.TrimIdempotent` | module/rust/src/lib.rs:70 | trimming an already trimmed value changes nothing |
| `Text.TrimEmptyIff` | module/rust/src/lib.rs:103 | `trim` gives the empty string exactly when the input is all whitespace |
| `Text.TrimDropsTrailing` | module/rust/src/lib.rs:103 | a trailing whitespace character, such as the newline `read_line` keeps, does not change the trimmed value |
| `Text.Contains` | module/rust/src/lib.rs:70 | `contains` is true exactly when the pattern occurs at some position of the text |
| `Text.ContainsEmpty` | module/rust/src/lib.rs:70 | every string contains the empty string |
| `Loader.FirstSegment` | module/rust/src/lib.rs:88-89 | the first item of the NUL split is a prefix of the buffer with no NUL, followed by a NUL or by the end of the buffer |
| `Loader.FirstSegmentUnique` | module/rust/src/lib.rs:88-89 | that description fits exactly one prefix |
| `Loader.ProcessName` | module/rust/src/lib.rs:88-91 | the process name never holds a NUL |
| `Loader.GetProcessName` | module/rust/src/lib.rs:83-94 | `get_process_name` fails exactly when reading cmdline fails, with that error; a name it returns holds no NUL |
| `Loader.ProcessNameBeforeNul` | module/rust/src/lib.rs:88-91 | the name is the decoding of the bytes before the first NUL (all of them when there is none), or empty when those bytes are not UTF-8 |
| `Loader.ProcessNameBytes` | module/rust/src/lib.rs:88-89 | a non-empty name, encoded again, is exactly the buffer's bytes up to its first NUL or its end |
| `Loader.ProcessNameOfArgv` | module/rust/src/lib.rs:83-94 | for a cmdline laid out as argv[0], NUL, then anything, the name is argv[0] |
| `Loader.ProcessNameWithoutNul` | module/rust/src/lib.rs:88-91 | a buffer without NUL is decoded whole; the empty buffer gives the empty name |
| `Loader.UndecodableNameMatchesOnlyBlank` | module/rust/src/lib.rs:88-91 | a cmdline whose first segment is not UTF-8 is named "" and is selected only by a blank target |
| `Loader.FirstLine` | module/rust/src/lib.rs:98-101 | `read_line` takes a prefix of the file that has no newline before its last byte, and it ends with a newline or at the end of the file |
| `Loader.FirstLineThroughNewline` | module/rust/src/lib.rs:101 | the first newline ends the line, whatever follows it |
| `Loader.LineTextNewline` | module/rust/src/lib.rs:101-103 | after trimming, a decoded first line holds no newline |
| `Loader.ReadTargetConfig` | module/rust/src/lib.rs:96-104 | a read error passes through; on a readable file it succeeds exactly when the first line is UTF-8 and otherwise fails with `InvalidData`; a target it returns holds no newline and has no whitespace at either end |
| `Loader.ReadTargetConfigOfLine` | module/rust/src/lib.rs:96-104 | a file holding a line, a newline and anything else yields the trimmed line |
| `Loader.ReadTargetConfigWithoutNewline` | module/rust/src/lib.rs:96-104 | a file without a newline is read whole and trimmed |
| `Loader.RetrimIsNoop` | module/rust/src/lib.rs:70 | the second `trim()` in the match leaves the configured target unchanged |
| `Loader.IsTarget` | module/rust/src/lib.rs:70 | the match holds exactly when the trimmed target occurs in the process name |
| `Loader.IsTargetMatchesBytes` | module/rust/src/lib.rs:70 | the match equals the byte-level search `str::contains` performs on the two UTF-8 strings |
| `Loader.BlankTargetMatchesAll` | module/rust/src/lib.rs:70 | a blank target matches every process name |
| `Loader.EmptyNameMatchesOnlyBlank` | module/rust/src/lib.rs:70 | the empty name is matched exactly by blank targets |
| `Loader.ServiceProcessMatches` | module/rust/src/lib.rs:70 | the target "com.example.app" selects the process "com.example.app:remote" |
| `Loader.InjectPayload` | module/rust/src/lib.rs:106-122 | `inject_payload` makes exactly one `dlopen` of the path with `RTLD_NOW`; it reports success exactly when the handle is non-null, and calls `dlerror` exactly on failure |
| `Loader.Specialize` | module/rust/src/lib.rs:47-78 | the cmdline is read first; a failed name read ends the hook before the config is read; a failed config read ends it before any match or load; a load happens exactly when both reads succeed and the name contains the trimmed target, and then exactly once, of `PAYLOAD_PATH` |
| `Loader.PostAppSpecialize` | module/rust/src/lib.rs:47-78 | the config file is read exactly when the cmdline read succeeded; at most one load is attempted, and it is of `PAYLOAD_PATH` with `RTLD_NOW` |
| `Loader.LoadAttemptedIff` | module/rust/src/lib.rs:49-77 | a load is attempted exactly when both reads succeed, the first config line is UTF-8, and the process name contains that line trimmed |
| `Loader.DueLoadRun` | module/rust/src/lib.rs:106-122 | when a load is due, the calls are the two reads, then one `dlopen`, then `dlerror` only if the handle is null; a failed load is only reported |
| `Loader.SpecializeLoad` | module/rust/src/lib.rs:70-77 | the same, for the hook's control flow given what its helpers returned |
| `Loader.BlankConfigMatchesEveryProcess` | module/rust/src/lib.rs:61-77 | a readable config whose first line is blank selects every process whose cmdline can be read |
| `Loader.EmptyConfigMatchesEveryProcess` | module/rust/src/lib.rs:61-77 | an empty config file selects every process whose cmdline can be read |
| `Loader.InvalidConfigStopsBeforeMatch` | module/rust/src/lib.rs:61-68 | a first config line that is not UTF-8 ends the hook after the two reads, with no match and no load |
| `Loader.HookReadPaths` | module/rust/src/lib.rs:47-61 | the hook reads `/proc/self/cmdline` first and then, only when that read succeeded, the configuration file at `CONFIG_PATH`; no other file is read |
| `Loader.SpecializeReadPaths` | module/rust/src/lib.rs:84-97 | the same, for the hook's control flow given what its helpers returned |
| `Loader.SelectedWhenNameContainsTarget` | module/rust/src/lib.rs:47-78 | for any argv[0] and config line, the hook loads the payload when argv[0] contains the trimmed line |

## Left out

- `module/rust/src/binding.rs` is not modelled. It is the host's C ABI layout: function-pointer tables, JNI handle types, the specialize-argument records, and `bitflags` constants. It has no logic.
- `on_load` and every log call (`info!`, `debug!`, `error!`) are left out; logging has no effect on control flow. The `dlerror` message is kept only as the failed status's text.
- File I/O (`File::open`, `read_to_end`, `BufReader::read_line`) is not modelled. What a read returns, or the error it fails with, is an input in `Env`. The model does not distinguish an open failure from a read failure.
- `libc::dlopen` and `libc::dlerror` are foreign calls. Their answer (a handle, where 0 is null, and an optional message) is an input. `RTLD_NOW` is kept symbolic (`DlopenFlag.RtldNow`): the `libc` crate defines it as 2 on 64-bit Android and Linux but as 0 on 32-bit Android, and the hook passes the constant whatever its value.
- `Loader.InjectPayload`: `CString::new(path).unwrap()` panics on a path with an interior NUL. The model states this as a precondition instead of modelling the panic. `PAYLOAD_PATH` meets it.
- `Loader.InjectPayload`: `to_string_lossy` on the `dlerror` text is not modelled; the message is taken as a string as it is.
- The `zygisk_module!` and `zygisk_companion!` macros, and the `api`, `module` and `macros` modules, are not part of this model.
- The `_api` and `_args` parameters of `post_app_specialize` are unused by the code, so they do not appear in the model.
- `Text.Contains` is defined on characters, not bytes. `Loader.IsTargetMatchesBytes` proves it equal to the byte-level search Rust performs.
