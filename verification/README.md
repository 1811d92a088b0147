# pista-feeds: Bluetooth feed and weather retry schedule, in Dafny

This project models two small sequential cores of the pista status-bar feeds.

**The Bluetooth feed** (`src/lib/feeds/bluetooth/mod.rs`) is modelled in module `Bluetooth`:
- The byte of an rfkill `state` file decodes to a `DeviceState` (`FromByte`). Every byte outside {0, 1, 2, 254} is an error.
- The feed `State` is a class. `prefix` is a constant and `deviceState` is the one field `Update` overwrites. `Display` returns the line `prefix + symbol + "\n"`. The symbol is "--" for no event or `NoDev`, "on" for `On`, and "off" for both `OffSoft` and `OffHard`.
- `DeviceState::read` is the method `Read`, a loop with early returns over an abstract listing of rfkill entries. An entry holds the text of its `type` file and of its `state` file, and either read may fail.
- `run`'s `filter_map` is the function `Events`. It drops failed reads and keeps successful ones in order.

`str::trim_end` and `str::parse::<u8>` are modelled in module `RustText`, with the semantics of Rust's standard library.

**The weather sensor** (`pista-sensor-weather.rs`) is modelled in module `Weather`:
- `UserAgent::from_cli` is `FromCli`, and `UserAgent`'s `Display` is `Render`.
- The retry loop of `main` is the method `Schedule`. It runs over a finite sequence of download outcomes and returns the sleep chosen after each one. It is proved equal to a closed form, `Sleeps`:
  - after a success the sleep is the configured interval;
  - after a failure it is 15 · 2^k, where k counts the failures directly before it.
- Lemmas about `Sleeps` cover the rest: doubling within a failure run, the run 15, 30, 60, …, strict growth, the reset after a success, and the limit of the source's `u64` delay.

In the code, `update` never fails: an invalid byte is an error of `read` (`Read` returns `Err(InvalidStateByte(b))`), and `run` drops it before it reaches the state.

## Model

| member | source | states |
|---|---|---|
| `RustText.TrimEnd` | src/lib/feeds/bluetooth/mod.rs:63-65 | the result is a prefix of the text that does not end in whitespace, and everything removed is whitespace |
| `RustText.ParseU8` | src/lib/feeds/bluetooth/mod.rs:64-65 | an accepted text is an optional `+` followed only by decimal digits |
| `RustText.ParseU8Accepts` | src/lib/feeds/bluetooth/mod.rs:64-65 | for every text and byte: the text parses to the byte exactly when it is an optional `+`, any number of zeros, then the byte's decimal form |
| `RustText.ParseU8Cases` | src/lib/feeds/bluetooth/mod.rs:64-65 | "007" parses to 7 and "+255" to 255; "256", "", "+", "-1", " 1" and "1\n" are rejected |
| `RustText.ParseShowRoundTrip` | src/lib/feeds/bluetooth/mod.rs:64-65 | parsing the decimal form of any byte, with or without `+`, gives that byte back |
| `RustText.TrimEndShowLine` | src/lib/feeds/bluetooth/mod.rs:65 | trimming a newline-terminated decimal number removes exactly the newline |
| `Bluetooth.FromByte` | src/lib/feeds/bluetooth/mod.rs:73-81 | the decode succeeds exactly for the bytes 0, 1, 2 and 254; every other byte gives `InvalidStateByte` with that byte |
| `Bluetooth.FromByteIsInverse` | src/lib/feeds/bluetooth/mod.rs:73-78 | `FromByte(b) == Ok(d)` exactly when b is the byte `from_byte` maps to d (0→OffSoft, 1→On, 2→OffHard, 254→NoDev) |
| `Bluetooth.Symbol` | src/lib/feeds/bluetooth/mod.rs:31-36 | "--" exactly for no state or NoDev; "on" exactly for On; "off" exactly for OffSoft or OffHard |
| `Bluetooth.State.constructor` | src/lib/feeds/bluetooth/mod.rs:11-16 | a new state keeps the prefix and holds no device state |
| `Bluetooth.State.Update` | src/lib/feeds/bluetooth/mod.rs:22-28 | the device state becomes exactly the event; the result is `Ok(None)` (no failure, no alerts); the prefix is a constant |
| `Bluetooth.State.Display` | src/lib/feeds/bluetooth/mod.rs:30-39 | the line is the prefix, then the symbol of the current state, then a newline; no field changes |
| `Bluetooth.DisplayIsStable` | src/lib/feeds/bluetooth/mod.rs:30-39 | two displays in a row give identical lines |
| `Bluetooth.FreshDisplay` | src/lib/feeds/bluetooth/mod.rs:11-37 | the first display of a fresh state is the prefix followed by "--" and a newline |
| `Bluetooth.DecodeState` | src/lib/feeds/bluetooth/mod.rs:64-66 | a trimmed state text that does not parse as a `u8` gives `InvalidNumber` of that text; a parsed byte outside the encoding gives `InvalidStateByte` of it; a parsed byte that encodes a state decodes to that state, and a decoded state is always the one whose byte was parsed |
| `Bluetooth.StopOutcome` | src/lib/feeds/bluetooth/mod.rs:63-67 | at a stopping entry the result is never `Ok(None)`: an unreadable type or state gives that read error, otherwise the result is the state text's parse or decode error when it does not decode, and `Some` of the decoded state when it does |
| `Bluetooth.Read` | src/lib/feeds/bluetooth/mod.rs:53-71 | a failed listing gives its error; with no Bluetooth entry and no failed type read the result is `Ok(None)`; otherwise the result is fixed by the first entry that has a Bluetooth type or an unreadable type: its read error, or the parse or decode error of its state text, or the decoded state |
| `Bluetooth.WalkIsDetermined` | src/lib/feeds/bluetooth/mod.rs:56-70 | every listing either has no stopping entry or has a first one, so `Read`'s contract determines its result |
| `Bluetooth.DecodeStateFile` | src/lib/feeds/bluetooth/mod.rs:63-66 | a state file in the kernel's format (decimal, newline) decodes exactly as `FromByte` of its byte; e.g. "7\n" gives `InvalidStateByte(7)` |
| `Bluetooth.DecodeStateFileOf` | src/lib/feeds/bluetooth/mod.rs:63-78 | the state file written for a device state decodes back to that state |
| `Bluetooth.Events` | src/lib/feeds/bluetooth/mod.rs:87-95 | a value is in the event stream exactly when some read succeeded with it; the stream is no longer than the reads |
| `Bluetooth.EventsAppend` | src/lib/feeds/bluetooth/mod.rs:89-95 | the stream of concatenated reads is the concatenation of their streams, so order is kept |
| `Bluetooth.EventsOfOne` | src/lib/feeds/bluetooth/mod.rs:89-95 | a successful read yields its value; a failed read yields nothing |
| `Bluetooth.EventsAllOk` | src/lib/feeds/bluetooth/mod.rs:89-95 | when no read fails, the stream is exactly the read values, position by position |
| `Bluetooth.EventsAllErr` | src/lib/feeds/bluetooth/mod.rs:89-93 | when every read fails, the stream is empty |
| `Weather.FromCli` | pista-sensor-weather.rs:119-126 | the four identification fields are copied unchanged |
| `Weather.Render` | pista-sensor-weather.rs:129-137 | the header starts with the application name and a `/`, ends with `)`, and is 6 characters longer than the four fields together |
| `Weather.ProductNameOfRender` | pista-sensor-weather.rs:131-135 | if the application name has no `/`, the text before the first `/` of the header is the application name |
| `Weather.UserAgentOfCli` | pista-sensor-weather.rs:119-135 | the header built from the configuration is `name/version (url; email)` |
| `Weather.TrailingFailures` | pista-sensor-weather.rs:188-197 | counts the failures at the end of an outcome sequence: all of them failed, and the outcome before them, if any, succeeded |
| `Weather.Schedule` | pista-sensor-weather.rs:183-201 | the loop's sleeps are the closed form `Sleeps`; its final retry delay is 15 · 2^(trailing failures), so 15 at the start and after a success |
| `Weather.TrailingFailuresAfterSuccess` | pista-sensor-weather.rs:194-197 | after a success, the failure count depends only on later outcomes |
| `Weather.ResetAfterSuccess` | pista-sensor-weather.rs:194-198 | the sleeps after a success are those of a freshly started sensor, whatever the history before it |
| `Weather.FailureDoubles` | pista-sensor-weather.rs:188-192 | a failure right after a failure sleeps twice as long as the previous one |
| `Weather.FailureRun` | pista-sensor-weather.rs:183-192 | n failures in a row, at the start or after a success, sleep 15, 30, 60, …, 15 · 2^(n−1) seconds |
| `Weather.FailureRunIncreases` | pista-sensor-weather.rs:183-192 | within such a run the sleeps strictly increase |
| `Weather.RetryDelayFitsU64` | pista-sensor-weather.rs:183-191 | the delay after k consecutive failures fits in a `u64` exactly when k ≤ 60 |
| `Weather.ThreeFailuresThenSuccess` | pista-sensor-weather.rs:183-198 | three failures then a success sleep 15, 30, 60, then the configured interval |

## Left out

- The sysfs walk and its file reads (`fs::read_dir`, `entry?`, `fs::read_to_string`) are replaced by an abstract listing. A failed `entry?` and a failed read of the entry's `type` file are both the entry's `kind` being an error; the model does not tell them apart because the source returns either one at once.
- The contents of errors: `anyhow` errors with formatted messages become the `Error` datatype, and every I/O failure becomes `Io`.
- `Bluetooth.State.Display`: a failing write to the output sink (the `?` on `writeln!`) is not modelled; the method returns the line it would write.
- `crate::clock`, `crate::pipeline::run_to_stdout` and `crate::alert` are not part of this model; they live in other modules of the crate. So the infinite tick stream is a finite sequence of reads in `Events`, and `Alert` carries only a message.
- The error log line that `run` writes for a dropped read is left out (a side effect).
- `download` (HTTP request, headers, status check, XML decoding), `CurrentObservation::summary`, `serde_rfc2822`, the summary-file write and the `{:3.0}°F` temperature line are left out. They are network I/O, foreign libraries, time-zone handling and floating-point formatting. A download is only its outcome, `Downloaded` or `Failed`.
- `std::thread::sleep` and the log lines of `main` are side effects. `Schedule` returns the chosen sleep durations instead.
- Command-line parsing and its defaults (`Cli` derives from clap) are configuration plumbing; `Cli` is a plain datatype.
- `src/bin/pista-feed-pulseaudio.rs` only wires command-line options into an external PulseAudio library.
- `Weather.Schedule`: the source's loop never ends; the model runs it over a finite prefix of outcomes.
- `Weather.Schedule`: the retry delay is an unbounded natural number, while the source's is a `u64` doubled with no cap. `RetryDelayFitsU64` shows the difference starts only after 61 consecutive failures, which is more than 10^11 years of retries.
