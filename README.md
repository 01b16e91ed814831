# Graphed-variable sample store of NEURON-OpenFrameworks

NEURON-OpenFrameworks is an openFrameworks application. It subscribes to a
stream of `(gid, t, v)` samples published by a NEURON simulation and plots
each configured variable as a polyline. This project models the core of that
application in Dafny:

- **`GraphedVariable`** (`src/ofApp.h`), in module `Graphed`. This is the
  per-variable record: its identifier and name, its plotting options with
  their defaults, and its sample store. A new store is seeded with one
  sentinel sample `(0, 0)` and only ever grows. It is a class whose
  `samples` field is a sequence that `PushSample` extends at the back.
- **`ofApp`** (`src/ofApp.cpp`), in module `App`. This is class `OfApp`,
  which holds the map from unsigned identifier to graphed variable. Its
  methods are:
  - `Setup`: the `connection` defaults, the connect address and the
    `variable` registration loop.
  - `Ingest`: the parsing loop of `update`. It truncates each `gid` to an
    unsigned identifier and appends `(t, v)` to that variable when the
    identifier is a key; otherwise it drops the triple.
  - `Draw`: the polyline of every variable.
- **Pure specifications**, each with its own lemmas:
  - `Ingestion`: the effect of a message on the map of sample stores.
  - `Config`: the registrations, the connection defaults, and the address
    with a parser that recovers its parts.
  - `Screen`: the affine map `sample_to_screen`, its inverse, and the
    polyline predicate.
  - `Numeric`: truncation toward zero, and decimal rendering of the port
    with its inverse.

The state-changing methods are proved against the specification
functions. Their contracts state:
- `Ingest`: `Windows() == Ingested(old(Windows()), message)`.
- `RegisterAll`: `Names() == Registered(old(Names()), entries)`.

The properties the program relies on are lemmas about those functions, and
invariants (`OfApp.Valid`) that every method preserves:
- each variable is filed under its own `id`;
- each sample store is non-empty.

Some behaviour of the code is easy to misread from its names and comments.
The model follows what the code does:
- Nothing is ever evicted from a sample store; removing samples outside the
  plotting range is only a TODO (`src/ofApp.cpp:128`).
- `t_lim_lower` is never written after construction, although its
  declaration calls it "constantly updated" (`src/ofApp.h:141`).
- A repeated variable id in the configuration replaces the earlier variable
  (`variables[id] = ...` at `src/ofApp.cpp:78`): the last entry wins.
- The received message is parsed as text with `istringstream`, although the
  comments at `src/ofApp.cpp:110-111` and `src/ofApp.cpp:116-117` expect
  concatenated floating-point triples.

## Model

| member | source | states |
|---|---|---|
| `Numeric.TruncateTowardZero` | src/ofApp.cpp:120 | the C++ floating-to-integer conversion: for r >= 0 the result n satisfies n <= r < n + 1, for r < 0 it satisfies n - 1 < r <= n (truncation toward zero, not floor) |
| `Numeric.TruncateIsOdd` | src/ofApp.cpp:120 | truncation commutes with negation |
| `Numeric.TruncateOfIntegral` | src/ofApp.cpp:120 | an integral value converts to itself |
| `Numeric.DecimalString` | src/ofApp.cpp:193 | the port is written as a non-empty string of decimal digits with no leading zero (0 is written "0") |
| `Numeric.DecimalRoundTrip` | src/ofApp.cpp:193 | reading the written digits back gives the port that was written |
| `Numeric.DecimalStringInjective` | src/ofApp.cpp:193 | distinct ports are written as distinct texts |
| `Graphed.GraphedVariable.constructor` | src/ofApp.h:100-115 | stores id and name as given; ax_origin (0,0), y_height 50, y_per_v 1, x_per_t 0.5, x_width_max 500, v_lim_upper 40, v_lim_lower -80, t_lim_lower 0; samples is exactly the one sentinel (0,0); y_height_max() is 120 |
| `Graphed.GraphedVariable.YHeightMax` | src/ofApp.h:117-119 | (v_lim_upper - v_lim_lower) * y_per_v converted to int by truncation toward zero |
| `Graphed.GraphedVariable.PushSample` | src/ofApp.cpp:123 | push_back: the new samples are the old ones followed by the sample, and no other field may change |
| `Screen.SampleToScreen` | src/ofApp.cpp:168-175 | a sample at t_lim_lower lands on ax_origin.x and one at v_lim_lower on ax_origin.y |
| `Screen.ScreenRoundTrip` | src/ofApp.cpp:168-175 | with non-zero scales the map is invertible: the sample is recovered from its screen point |
| `Screen.LowerLimitsMapToOrigin` | src/ofApp.cpp:171-173 | the sample (t_lim_lower, v_lim_lower) maps exactly to ax_origin |
| `Screen.SampleToScreenIsAffine` | src/ofApp.cpp:171-173 | screen offsets are sample offsets times x_per_t and y_per_v |
| `Screen.ValuesAreNotClamped` | src/ofApp.cpp:172-173 | with positive y_per_v a value above v_lim_upper maps beyond the band of height (v_lim_upper - v_lim_lower) * y_per_v: no clamping |
| `Screen.MappingExample` | src/ofApp.cpp:168-175 | origin (100,200), x_per_t 0.5, y_per_v 1, v_lim_lower -80, t_lim_lower 10 put (20, -40) at (105, 240) |
| `Screen.PolylineIsConnected` | src/ofApp.cpp:145-158 | each drawn segment starts where the previous one ends, from the first sample's point to the last one's |
| `Screen.PolylineIsUnique` | src/ofApp.cpp:145-158 | a variable's samples and plotting options determine its polyline |
| `Ingestion.ChannelId` | src/ofApp.cpp:120 | the identifier is gid truncated toward zero: id <= gid < id + 1 for gid >= 0, and 0 for -1 < gid < 0 |
| `Ingestion.IngestOne` | src/ofApp.cpp:119-124 | one triple: the key set is unchanged; the variable under its id gains exactly (t, v) at the back; every other variable is unchanged; an id that is not a key changes nothing |
| `Ingestion.Ingested` | src/ofApp.cpp:118-125 | a whole message never adds or removes a key |
| `Ingestion.IngestedNext` | src/ofApp.cpp:118-125 | the loop's step: the first i + 1 triples are the first i followed by triple i |
| `Ingestion.IngestedPerChannel` | src/ofApp.cpp:118-125 | after a message, each variable holds its old samples followed by exactly the message's samples for its id, in message order |
| `Ingestion.IngestedOnlyAppends` | src/ofApp.cpp:118-125 | append-only: old samples are a prefix of the new, lengths never decrease, a non-empty store stays non-empty |
| `Ingestion.UnknownIdsChangeNothing` | src/ofApp.cpp:122-124 | a message whose ids are all unregistered leaves every store and the key set identical |
| `Ingestion.SamplesForAbsentId` | src/ofApp.cpp:120-124 | a variable gains nothing from a message without a triple for its id |
| `Ingestion.SamplesForSplit` | src/ofApp.cpp:118-125 | splitting a message splits the samples per id in order |
| `Ingestion.IngestedSplit` | src/ofApp.cpp:118-125 | two messages received one after the other act as their concatenation |
| `Config.Address` | src/ofApp.cpp:192-193 | the address text is protocol, "://", host, ":" and the port in decimal: the port's digits are exactly what follows the last ':', and a protocol without ':' is exactly what precedes the first |
| `Config.ConnectionEndpoint` | src/ofApp.cpp:17-22 | the connection parameters with absent ones defaulted; the port fits in 32 bits, and an empty connection table gives ("tcp", "localhost", 8889) |
| `Config.ConnectAddress` | src/ofApp.cpp:17-25 | the address `setup` connects to is the address of the defaulted endpoint, and that endpoint is read back from it whenever the protocol has no ':' |
| `Config.AddressRoundTrip` | src/ofApp.cpp:192-194 | the address protocol + "://" + host + ":" + port loses nothing: protocol (without ':'), host and port are recovered from it |
| `Config.ConnectAddressUsesDefaults` | src/ofApp.cpp:17-22 | absent protocol, host, port become "tcp", "localhost", 8889; present ones are used as given; the connect address decodes to exactly those |
| `Config.DefaultConnectAddress` | src/ofApp.cpp:20-22 | with no connection table the address is "tcp://localhost:8889" |
| `Config.Registered` | src/ofApp.cpp:66-80 | registration never removes an identifier |
| `Config.RegisteredNext` | src/ofApp.cpp:66-80 | the loop's step: a complete entry binds its id to its name, an incomplete one is skipped |
| `Config.DeclaredIdsAreCompleteIds` | src/ofApp.cpp:69-76 | an id is registered exactly when some entry with both name and id carries it |
| `Config.RegisteredKeys` | src/ofApp.cpp:66-80 | the keys afterwards are the old keys plus the ids of the complete entries |
| `Config.RegisteredLastWins` | src/ofApp.cpp:78-79 | a repeated id is bound to the name of the last complete entry carrying it |
| `Config.RegisteredKeepsUndeclared` | src/ofApp.cpp:66-80 | an id no complete entry carries keeps its earlier binding or stays absent |
| `App.DrawVariable` | src/ofApp.cpp:144-158 | for a variable with n >= 1 samples, exactly n - 1 segments; segment i joins the mapped samples i and i + 1 |
| `App.OfApp.Valid` | src/ofApp.h:61 | the registry invariant: each variable is filed under its own id (`src/ofApp.cpp:78-79`) and its store is non-empty (seeded at `src/ofApp.h:113-114`); hence distinct keys hold distinct objects |
| `App.OfApp.constructor` | src/ofApp.h:61 | the application starts with no variables |
| `App.OfApp.Register` | src/ofApp.cpp:78-79 | files a fresh variable (sentinel sample, default options) under id, replacing any earlier one, leaving the other variables in place; id equals key |
| `App.OfApp.Setup` | src/ofApp.cpp:17-80 | returns the connect address with defaults filled in, and registers the variable entries as RegisterAll does |
| `App.OfApp.RegisterAll` | src/ofApp.cpp:64-80 | names afterwards are Registered(old names, entries); keys grow by exactly the declared ids, each holding a fresh variable with the sentinel sample and default options; other variables untouched; every variable's id equals its key and its store is non-empty |
| `App.OfApp.AppendSample` | src/ofApp.cpp:122-124 | the variable under a key gains the sample at the back; every other store is unchanged and only the samples field may change |
| `App.OfApp.Ingest` | src/ofApp.cpp:112-125 | the stores afterwards are Ingested(old stores, message); the map itself is unchanged; only samples fields change; stores stay non-empty and filed under their ids |
| `App.OfApp.Draw` | src/ofApp.cpp:140-159 | one polyline per registered variable, each as DrawVariable states |

## Left out

- The ZeroMQ transport is not modelled: context and socket creation, `connect`, `setsockopt` and the blocking `recv` (network I/O). `Setup` returns the address that would be passed to `connect`.
- Text decoding of the message with `istringstream` is not modelled; `Ingest` takes the triples already read. The loop tests the stream before reading, so it runs once more after the last triple: there the extraction fails before any number is read, `gid`, `t` and `v` keep the last triple's values, and that sample is pushed a second time when its id is a key (on an empty message `gid` is read uninitialised). `Ingest` and `Ingested` describe the well-formed sequence of triples, not this extra pass.
- App.OfApp.Ingest: requires every gid to lie in (-1, 2^32), because the C++ conversion `(unsigned int) gid` is undefined behaviour outside that range.
- App.OfApp.Draw: returns a map from identifier to segments, not the sequence of `ofDrawLine` calls in ascending key order, so the order across variables is not modelled.
- MIDI port handling and `newMidiMessage` are not modelled (device library and callbacks).
- The keyboard, mouse and window handlers are empty in the source and are not modelled.
- TOML parsing is not modelled; the configuration is given as already-parsed optional fields. `get_as<uint32_t>` yields only in-range ids.
- A configuration with no `variable` table array is not modelled: `get_table_array` then returns null and the loop at `src/ofApp.cpp:66` dereferences it. `Configuration.variables` is a plain sequence, so this case cannot be expressed; an empty array registers nothing.
- Window creation, `ofSetWindowTitle`, `ofDrawLine` and console logging are not modelled (rendering and I/O).
- `src/main.cpp` (command-line parsing, window setup, exit on a missing `--config`) is not part of this model.
- `float`/`double` rounding is not modelled: samples, plotting options and screen coordinates are real numbers. Likewise the float-to-`int` conversion in `y_height_max` (`src/ofApp.h:118`) is undefined outside the range of `int`; `YHeightMax` returns an unbounded integer there.
- `max_time` and `add_graphed_var` are declared but never assigned or defined, so they are not modelled. Eviction and scrolling are not implemented by the source.
- The port passes from `unsigned int` through `int` back to `unsigned int`. That round trip keeps the value, so the port is modelled as the configured unsigned value.
