# Oversight tree options: a Dafny model

This project models the construction-time configuration surface of the
`cirello.io/oversight` supervision tree, as vendored in
`vendor/cirello.io/oversight/tree_options.go`. It covers two things:

- **Intensity and strategy options.** `WithRestartIntensity`, `NeverHalt`,
  `DefaultRestartIntensity`, `WithRestartStrategy`, `DefaultRestartStrategy`
  and `WithSpecification` assign fields of the tree in place. Each is a
  method of the class `TreeOptions.Tree`. Its `modifies` clause names exactly
  the fields it writes (`this`maxR`, `this`maxT`, `this`strategy`), so every
  other field, the child registry included, is provably unchanged.
  `WithSpecification` is written as a call of `WithRestartIntensity` followed
  by `WithRestartStrategy`, as in the source.
- **Child registration.** `Process`, `Processes` and `WithTree` append to an
  append-only registry. The registry has three parts: the specification list
  `processes`, the runtime-state list `states`, and the name index
  `processIndex`. The pure function `TreeOptions.Register` defines what one
  `Process` does to these three parts, and the lemma
  `TreeOptions.RegisterEffect` states it clause by clause:
  - it appends a state slot;
  - it fills in the name, restart and shutdown defaults;
  - it appends the completed specification;
  - it points the final name at the new position.
  
  `Tree.Process` is proved to produce exactly `Register` of the old registry.
  `Tree.Processes` is a loop over its arguments, proved against
  `RegisterEach`, whose effect is stated by `RegisterEachEffect` and
  `RegisterEachStopsAtFirstMissing`. A missing start function is the
  source's panic. It is
  modelled as the outcome `Fail("child process must always have a
  function")`. The state slot has already been appended by then; the
  specification list and the index are left as they were. `Processes`
  stops at the first such failure. `WithTree` accepts a nil tree (`Tree?`):
  the nested tree's `Start` is still a non-nil start function, so the
  registration succeeds.
- **Option values.** `Process(spec)` returns a closure that holds its own
  copy of `spec` and rewrites that copy each time it is applied (name
  and default policies). The class `TreeOptions.ProcessOption` is that
  closure: its field `spec` is the captured specification and `Apply`
  registers it on a tree and then leaves the rewritten copy behind.
  `RegistryProperties.ReappliedOptionGetsSuffix` shows the consequence:
  applying one unnamed option value twice to an empty tree names the
  children `"childproc 1"` and `"childproc 1 2"`. A freshly built option
  would give `"childproc 2"`.

The registry invariant `TreeOptions.Wf` holds from construction and is kept
by every registration. It says:
- every stored specification is complete (a name, a restart policy, a
  shutdown policy and a start function);
- there is at least one state slot per specification;
- every stored name is a key of the index;
- the index sends each name to the **newest** child registered under it.

Names are not guaranteed to be unique. The collision suffix `" <n>"` is
applied once and not re-checked. `RegistryProperties.SuffixCanCollide`
shows the registrations `"x 3"`, `"x"`, `"x"`, after which two children are
named `"x 3"` and no index entry leads to the first one.
`RegistryProperties.RegisterKeepsDistinct` states exactly when a
registration keeps the names distinct. `IndexExactIffDistinct` states that
the index finds every child exactly when the names are distinct.

Several types are defined outside `tree_options.go`: the restart policy,
the shutdown policy, the strategy, child start functions and the tree's
state type. They are closed tagged variants or opaque tokens here. A
`time.Duration` is an `int` number of nanoseconds.

## Model

| member | source | states |
|---|---|---|
| `Names.Decimal` | vendor/cirello.io/oversight/tree_options.go:89 | the `%d` rendering of a child number is a non-empty string of digits with no leading zero |
| `Names.DecimalRoundTrip` | vendor/cirello.io/oversight/tree_options.go:89 | reading the rendering back gives the number, so it loses nothing |
| `Names.DecimalInjective` | vendor/cirello.io/oversight/tree_options.go:92 | different child numbers render differently |
| `Names.GeneratedName` | vendor/cirello.io/oversight/tree_options.go:89 | defines the name `"childproc <n>"` given to a child registered without one; `GeneratedNameInjective` states that it tells child numbers apart |
| `Names.Suffix` | vendor/cirello.io/oversight/tree_options.go:92 | defines the collision suffix `" <n>"` (a space, then the child number); `FinalName` states when it is appended |
| `Names.GeneratedNameInjective` | vendor/cirello.io/oversight/tree_options.go:88-89 | generated names `"childproc <n>"` of different numbers differ |
| `TreeOptions.FinalName` | vendor/cirello.io/oversight/tree_options.go:88-93 | the base is the given name or, if that is empty, `"childproc <n>"`; it is kept iff it is not indexed yet, otherwise `" <n>"` is appended once; the result is never empty and can still be indexed only if base and suffixed name were both taken |
| `TreeOptions.Completed` | vendor/cirello.io/oversight/tree_options.go:88-99 | the rewritten specification carries the final name and the given start function; a missing restart becomes Permanent and a missing shutdown the default timeout, given ones are kept; with a start function the result is complete |
| `TreeOptions.Register` | vendor/cirello.io/oversight/tree_options.go:80-105 | defines the registry after one `Process`; its effect is stated by `RegisterEffect` and the invariant it keeps by `RegisterPreservesWf` |
| `TreeOptions.RegisterEffect` | vendor/cirello.io/oversight/tree_options.go:80-105 | one registration appends one state slot always; with a start function it appends one completed specification and keeps all earlier ones (the list is never reset); missing restart becomes Permanent and missing shutdown becomes the default timeout, while given ones are kept; the final name maps to the old length and all other keys keep their values; without a start function the list and index are unchanged |
| `TreeOptions.RegisterPreservesWf` | vendor/cirello.io/oversight/tree_options.go:100-104 | a registration keeps the registry invariant: complete entries, a state slot per entry, every name indexed, newest registration wins in the index |
| `TreeOptions.RegisterEach` | vendor/cirello.io/oversight/tree_options.go:67-75 | defines the registry and outcome after successive `Process` options, stopping at the first panic; its effect is stated by `RegisterEachEffect` and `RegisterEachStopsAtFirstMissing` |
| `TreeOptions.RegisterEachEffect` | vendor/cirello.io/oversight/tree_options.go:67-75 | successive registrations succeed iff every specification has a start function; earlier entries and state slots are kept; on success the list grows by the number of specifications; the surplus of state slots over specifications grows by one on failure and is otherwise kept |
| `TreeOptions.RegisterEachStopsAtFirstMissing` | vendor/cirello.io/oversight/tree_options.go:69-74 | when specification k is the first without a start function, the outcome is the panic, exactly k entries are added and k + 1 state slots, so nothing after k is registered |
| `TreeOptions.RegisterEachPreservesWf` | vendor/cirello.io/oversight/tree_options.go:67-75 | successive registrations keep the registry invariant |
| `TreeOptions.PermanentSpec` | vendor/cirello.io/oversight/tree_options.go:70-73 | defines the specification `Processes` builds per argument: no name, Permanent restart, no shutdown, the argument as start function |
| `TreeOptions.PermanentSpecs` | vendor/cirello.io/oversight/tree_options.go:69-73 | defines the specifications `Processes` builds for all its arguments, in argument order |
| `TreeOptions.SubtreeSpec` | vendor/cirello.io/oversight/tree_options.go:125-129 | defines the specification `WithTree` builds: no name, Permanent restart, Infinity shutdown, the nested tree's Start |
| `TreeOptions.Tree.WithRestartIntensity` | vendor/cirello.io/oversight/tree_options.go:22-26 | sets maxR and maxT to the arguments and writes no other field |
| `TreeOptions.Tree.NeverHalt` | vendor/cirello.io/oversight/tree_options.go:29-33 | sets maxR to -1 and writes no other field, maxT included |
| `TreeOptions.Tree.DefaultRestartIntensity` | vendor/cirello.io/oversight/tree_options.go:36-48 | sets maxR to 1 and maxT to 5 seconds (5,000,000,000 ns) and writes no other field |
| `TreeOptions.Tree.WithRestartStrategy` | vendor/cirello.io/oversight/tree_options.go:52-56 | sets the strategy and writes no other field |
| `TreeOptions.Tree.DefaultRestartStrategy` | vendor/cirello.io/oversight/tree_options.go:59-63 | sets the strategy to OneForOne and writes no other field |
| `TreeOptions.Tree.WithSpecification` | vendor/cirello.io/oversight/tree_options.go:13-18 | is WithRestartIntensity followed by WithRestartStrategy: sets maxR, maxT and strategy and nothing else |
| `TreeOptions.Tree.Process` | vendor/cirello.io/oversight/tree_options.go:80-106 | the new registry is `Register` of the old one, the invariant is kept, and the outcome is the panic exactly when the start function is missing |
| `TreeOptions.Tree.Processes` | vendor/cirello.io/oversight/tree_options.go:67-76 | registers one Permanent, unnamed child per argument in order, stopping at the first missing start function; the registry and outcome are `RegisterEach` of the old registry |
| `TreeOptions.Tree.WithTree` | vendor/cirello.io/oversight/tree_options.go:123-131 | registers the nested tree's Start as one child with Permanent restart and Infinity shutdown, a nil tree included; never fails |
| `TreeOptions.ProcessOption.constructor` | vendor/cirello.io/oversight/tree_options.go:80-81 | the option value built by `Process(spec)` holds exactly the specification it was given |
| `TreeOptions.ProcessOption.Apply` | vendor/cirello.io/oversight/tree_options.go:80-105 | applying the option registers its current specification exactly as Process does, keeps the invariant, fails iff the start function is missing, and replaces the captured specification by its rewritten form, even when it then fails |
| `RegistryProperties.IndexExactIffDistinct` | vendor/cirello.io/oversight/tree_options.go:103-104 | in a well-formed registry, the index sends every child's name to that child iff no two children share a name |
| `RegistryProperties.RegisterKeepsDistinct` | vendor/cirello.io/oversight/tree_options.go:88-104 | starting from distinct names, a registration keeps them distinct iff its final name was not already indexed |
| `RegistryProperties.GeneratedNamesDistinct` | vendor/cirello.io/oversight/tree_options.go:88-89 | children all carrying generated names have distinct names |
| `RegistryProperties.RegisterKeepsIndexSound` | vendor/cirello.io/oversight/tree_options.go:100-104 | after a registration every index entry still leads to a child carrying that name |
| `RegistryProperties.RegisterNextGenerated` | vendor/cirello.io/oversight/tree_options.go:82-104 | when every child so far carries its generated name, an unnamed Permanent child numbered n is appended as `"childproc <n>"` with no suffix, the default shutdown timeout and its start function |
| `RegistryProperties.ProcessesGeneratesNames` | vendor/cirello.io/oversight/tree_options.go:67-104 | on a tree whose children carry generated names, Processes succeeds when every argument is present, and the new list is the old one followed by, in argument order, child number n named `"childproc <n>"` with Permanent restart, the default shutdown timeout and its own start function |
| `RegistryProperties.ProcessesOnEmptyTreeIndexesAll` | vendor/cirello.io/oversight/tree_options.go:67-104 | Processes on an empty tree gives distinct names, and the index finds every child |
| `RegistryProperties.SuffixCanCollide` | vendor/cirello.io/oversight/tree_options.go:91-104 | registering "x 3", "x", "x" names the first and third child "x 3"; the index maps "x 3" to 2 and "x" to 1, so nothing leads to child 0 |
| `RegistryProperties.ReappliedOptionGetsSuffix` | vendor/cirello.io/oversight/tree_options.go:80-93 | an unnamed option value applied twice to an empty tree names its children "childproc 1" and "childproc 1 2", where a fresh option would give "childproc 2" |

## Left out

- `Logger` and `WithLogger` (lines 108-120) are a logging sink with no effect on the registry or the limits. The `Println` in the placeholder stop function (lines 84-86) is left out for the same reason. The placeholder is the tag `StoppedBeforeStart`.
- `TreeOption` (line 9) is a closure type. Only the `Process` closure captures state that it rewrites; it is the class `ProcessOption`. The other options capture only their arguments, which they never change, so each is a method applied directly to the tree. The closures `Processes` and `WithTree` build a new `Process` option per call, so they are methods too.
- The bodies of child start functions and of a nested tree's `Start` (line 127) run elsewhere and concurrently. They are opaque tokens (`Func`, `SubtreeStart`).
- The `Tree` and `state` types, `oversight.New`, `Permanent()`, `Timeout()`, `Infinity()`, `OneForOne()` and `DefaultChildProcessTimeout` are defined in files that are not part of this model. The policies and strategies are closed tags. The tree's constructor here just takes the limits and starts with an empty registry. `DefaultChildProcessTimeout` is given the value 5 seconds; no proof depends on that value.
- The tree's other state fields are not modelled. These include the logger, the supervision control loop, intensity tracking and strategy execution.
- A Go panic unwinds to the caller. Here it is an outcome returned by `Process`, `Processes` and `WithTree`. The registry state it leaves behind is modelled exactly.
- A nil `processIndex` map, which would make `Process` panic on its write, is not modelled. The tree is assumed to be built with an empty index.
- Go's 64-bit width of `int` and `time.Duration` is not modelled. The options only store the values given, with no arithmetic on them.
- A nil `Strategy` argument is not modelled. A strategy is always one of the three tags.
- Names are compared as plain strings. `fmt.Sprintf`/`fmt.Sprint` are modelled only as the decimal rendering of a child number.
- Child names are not unique in every case: the collision suffix is applied once (lines 91-93) and the newest registration wins in the index (line 104).
