/** The construction-time configuration surface of an oversight supervision
    tree: the options that set its restart intensity and strategy, and the
    options that register child processes. */
module TreeOptions {
  import opened Names

  datatype Option<T> = None | Some(value: T)

  /** When a child is restarted. Only the Permanent tag is used here. */
  datatype RestartPolicy = Permanent | Transient | Temporary

  /** How long a child is given to stop: a grace period in nanoseconds, or forever. */
  datatype ShutdownPolicy = Timeout(grace: int) | Infinity

  datatype Strategy = OneForOne | OneForAll | RestForOne

  /** A child's start function, as an opaque token: a user function, or the
      Start method of a nested tree. */
  datatype ChildProcess = Func(token: nat) | SubtreeStart(tree: Tree?)

  datatype ChildProcessSpecification = ChildProcessSpecification(
    name: string,
    restart: Option<RestartPolicy>,
    shutdown: Option<ShutdownPolicy>,
    start: Option<ChildProcess>)

  /** The stop hook a freshly registered child carries until it is started. */
  datatype StopHook = StoppedBeforeStart

  /** The runtime-state slot of one child. */
  datatype State = State(stop: StopHook)

  /** Pass, or the panic that aborted the option. */
  datatype Outcome = Pass | Fail(error: string)

  const MissingStart := "child process must always have a function"

  /** time.Duration counts nanoseconds. */
  const Second: int := 1_000_000_000
  const DefaultMaxR: int := 1
  const DefaultMaxT: int := 5 * Second
  const DefaultChildProcessTimeout: int := 5 * Second

  /** The three pieces of tree state that child registration touches. */
  datatype Registry = Registry(
    processes: seq<ChildProcessSpecification>,
    states: seq<State>,
    processIndex: map<string, int>)

  const EmptyRegistry := Registry([], [], map[])

  /** A stored specification has every default filled in. */
  predicate Complete(spec: ChildProcessSpecification) {
    spec.name != "" && spec.restart.Some? && spec.shutdown.Some? && spec.start.Some?
  }

  /** k is the last position in ps of a child named n. */
  ghost predicate NewestWith(ps: seq<ChildProcessSpecification>, n: string, k: int) {
    0 <= k < |ps| && ps[k].name == n && forall j :: k < j < |ps| ==> ps[j].name != n
  }

  /** The registry invariant: every stored specification is complete, there
      is at least one state slot per specification, every name is indexed,
      and the index sends each name to its newest registration. */
  ghost predicate Wf(r: Registry) {
    && |r.processes| <= |r.states|
    && (forall i :: 0 <= i < |r.processes| ==> Complete(r.processes[i]))
    && (forall i :: 0 <= i < |r.processes| ==> r.processes[i].name in r.processIndex)
    && (forall n :: n in r.processIndex ==> NewestWith(r.processes, n, r.processIndex[n]))
  }

  /** The name a child registered as number id ends up with. */
  function FinalName(name: string, index: map<string, int>, id: nat): (r: string)
    ensures r != ""
    ensures name != "" && name !in index ==> r == name
    ensures var base := if name == "" then GeneratedName(id) else name;
      && (r == base || r == base + Suffix(id))
      && (r == base <==> base !in index)
      && (r in index ==> base in index && base + Suffix(id) in index)
  {
    var base := if name == "" then GeneratedName(id) else name;
    if base in index then base + Suffix(id) else base
  }

  /** The specification as Process rewrites it for child number id, given
      the index so far: final name, and default policies where none is
      given. The rewrite is done before the start function is checked. */
  function Completed(spec: ChildProcessSpecification, index: map<string, int>, id: nat): (c: ChildProcessSpecification)
    ensures c.name == FinalName(spec.name, index, id) && c.start == spec.start
    ensures spec.restart.Some? ==> c.restart == spec.restart
    ensures spec.restart.None? ==> c.restart == Some(Permanent)
    ensures spec.shutdown.Some? ==> c.shutdown == spec.shutdown
    ensures spec.shutdown.None? ==> c.shutdown == Some(Timeout(DefaultChildProcessTimeout))
    ensures spec.start.Some? ==> Complete(c)
  {
    var restart := if spec.restart.None? then Some(Permanent) else spec.restart;
    var shutdown := if spec.shutdown.None? then Some(Timeout(DefaultChildProcessTimeout)) else spec.shutdown;
    spec.(name := FinalName(spec.name, index, id), restart := restart, shutdown := shutdown)
  }

  /** What one Process option does to the registry. With no start function
      it panics after the state slot has been appended. */
  function Register(r: Registry, spec: ChildProcessSpecification): Registry {
    var states := r.states + [State(StoppedBeforeStart)];
    if spec.start.None? then
      r.(states := states)
    else
      var entry := Completed(spec, r.processIndex, |r.processes| + 1);
      Registry(r.processes + [entry], states, r.processIndex[entry.name := |r.processes|])
  }

  /** One registration appends one state slot. With a start function it
      appends one completed specification, keeps every earlier one and
      points the final name at the new position, leaving all other index
      entries alone; without one, the list and the index are unchanged. */
  lemma RegisterEffect(r: Registry, spec: ChildProcessSpecification)
    ensures var r' := Register(r, spec);
      && r'.states == r.states + [State(StoppedBeforeStart)]
      && (spec.start.None? ==> r'.processes == r.processes && r'.processIndex == r.processIndex)
      && (spec.start.Some? ==>
        && |r'.processes| == |r.processes| + 1
        && r'.processes[..|r.processes|] == r.processes
        && var e := r'.processes[|r.processes|];
        && e.name == FinalName(spec.name, r.processIndex, |r.processes| + 1)
        && Complete(e)
        && e.start == spec.start
        && (spec.restart.Some? ==> e.restart == spec.restart)
        && (spec.restart.None? ==> e.restart == Some(Permanent))
        && (spec.shutdown.Some? ==> e.shutdown == spec.shutdown)
        && (spec.shutdown.None? ==> e.shutdown == Some(Timeout(DefaultChildProcessTimeout)))
        && r'.processIndex.Keys == r.processIndex.Keys + {e.name}
        && r'.processIndex[e.name] == |r.processes|
        && forall n :: n in r.processIndex && n != e.name ==> r'.processIndex[n] == r.processIndex[n])
  {
  }

  lemma RegisterPreservesWf(r: Registry, spec: ChildProcessSpecification)
    requires Wf(r)
    ensures Wf(Register(r, spec))
  {
  }

  /** Successive Process options in order; a panic stops the rest. */
  function RegisterEach(r: Registry, specs: seq<ChildProcessSpecification>): (Registry, Outcome)
    decreases |specs|
  {
    if specs == [] then (r, Pass)
    else
      var r1 := Register(r, specs[0]);
      if specs[0].start.None? then (r1, Fail(MissingStart)) else RegisterEach(r1, specs[1..])
  }

  /** Successive registrations succeed exactly when every specification has
      a start function; they keep all earlier entries and state slots; on
      success the list grows by one entry per specification, and on failure
      there is one state slot more than entries added. */
  lemma {:induction false} RegisterEachEffect(r: Registry, specs: seq<ChildProcessSpecification>)
    ensures var res := RegisterEach(r, specs);
      && (res.1 == Pass <==> forall i :: 0 <= i < |specs| ==> specs[i].start.Some?)
      && (res.1 == Pass || res.1 == Fail(MissingStart))
      && |r.processes| <= |res.0.processes| && res.0.processes[..|r.processes|] == r.processes
      && |r.states| <= |res.0.states| && res.0.states[..|r.states|] == r.states
      && (res.1 == Pass ==> |res.0.processes| == |r.processes| + |specs|)
      && |res.0.states| - |res.0.processes| == |r.states| - |r.processes| + (if res.1 == Pass then 0 else 1)
    decreases |specs|
  {
    if specs != [] {
      var r1 := Register(r, specs[0]);
      RegisterEffect(r, specs[0]);
      if specs[0].start.Some? {
        RegisterEachEffect(r1, specs[1..]);
        var res := RegisterEach(r1, specs[1..]);
        assert res.0.processes[..|r.processes|] == res.0.processes[..|r1.processes|][..|r.processes|];
        assert res.0.states[..|r.states|] == res.0.states[..|r1.states|][..|r.states|];
        assert forall i :: 1 <= i < |specs| ==> specs[i] == specs[1..][i - 1];
      }
    }
  }

  /** When specification k is the first without a start function, exactly
      the k before it are registered, then one more state slot is appended,
      and the rest are never reached. */
  lemma {:induction false} RegisterEachStopsAtFirstMissing(r: Registry, specs: seq<ChildProcessSpecification>, k: nat)
    requires k < |specs| && specs[k].start.None?
    requires forall i :: 0 <= i < k ==> specs[i].start.Some?
    ensures var res := RegisterEach(r, specs);
      && res.1 == Fail(MissingStart)
      && |res.0.processes| == |r.processes| + k
      && |res.0.states| == |r.states| + k + 1
    decreases k
  {
    if k > 0 {
      assert specs[0].start.Some?;
      forall i | 0 <= i < k - 1
        ensures specs[1..][i].start.Some?
      {
        assert specs[1..][i] == specs[i + 1];
      }
      RegisterEachStopsAtFirstMissing(Register(r, specs[0]), specs[1..], k - 1);
    }
  }

  lemma {:induction false} RegisterEachPreservesWf(r: Registry, specs: seq<ChildProcessSpecification>)
    requires Wf(r)
    ensures Wf(RegisterEach(r, specs).0)
    decreases |specs|
  {
    if specs != [] {
      RegisterPreservesWf(r, specs[0]);
      if specs[0].start.Some? {
        RegisterEachPreservesWf(Register(r, specs[0]), specs[1..]);
      }
    }
  }

  /** The specification Processes builds for each of its arguments. */
  function PermanentSpec(p: Option<ChildProcess>): ChildProcessSpecification {
    ChildProcessSpecification("", Some(Permanent), None, p)
  }

  /** The specifications Processes builds for its arguments, in order. */
  function PermanentSpecs(ps: seq<Option<ChildProcess>>): seq<ChildProcessSpecification> {
    seq(|ps|, i requires 0 <= i < |ps| => PermanentSpec(ps[i]))
  }

  /** The specification WithTree builds for a nested tree. */
  function SubtreeSpec(subTree: Tree?): ChildProcessSpecification {
    ChildProcessSpecification("", Some(Permanent), Some(Infinity), Some(SubtreeStart(subTree)))
  }

  class Tree {
    var maxR: int
    var maxT: int
    var strategy: Strategy
    var processes: seq<ChildProcessSpecification>
    var states: seq<State>
    var processIndex: map<string, int>

    /** The registry part of the tree as a value. */
    function Children(): Registry
      reads this`processes, this`states, this`processIndex
    {
      Registry(processes, states, processIndex)
    }

    ghost predicate Valid()
      reads this`processes, this`states, this`processIndex
    {
      Wf(Children())
    }

    /** A tree with the given limits and no children. */
    constructor (maxR: int, maxT: int, strategy: Strategy)
      ensures Valid() && Children() == EmptyRegistry
      ensures this.maxR == maxR && this.maxT == maxT && this.strategy == strategy
    {
      this.maxR, this.maxT, this.strategy := maxR, maxT, strategy;
      processes, states, processIndex := [], [], map[];
    }

    // The intensity and strategy options write only the fields their
    // modifies clauses name; the registry is untouched.

    method WithRestartIntensity(maxR: int, maxT: int)
      modifies this`maxR, this`maxT
      ensures this.maxR == maxR && this.maxT == maxT
    {
      this.maxR, this.maxT := maxR, maxT;
    }

    method NeverHalt()
      modifies this`maxR
      ensures maxR == -1
    {
      maxR := -1;
    }

    method DefaultRestartIntensity()
      modifies this`maxR, this`maxT
      ensures maxR == DefaultMaxR && maxT == DefaultMaxT
    {
      WithRestartIntensity(DefaultMaxR, DefaultMaxT);
    }

    method WithRestartStrategy(strategy: Strategy)
      modifies this`strategy
      ensures this.strategy == strategy
    {
      this.strategy := strategy;
    }

    method DefaultRestartStrategy()
      modifies this`strategy
      ensures strategy == OneForOne
    {
      strategy := OneForOne;
    }

    method WithSpecification(maxR: int, maxT: int, strategy: Strategy)
      modifies this`maxR, this`maxT, this`strategy
      ensures this.maxR == maxR && this.maxT == maxT && this.strategy == strategy
    {
      WithRestartIntensity(maxR, maxT);
      WithRestartStrategy(strategy);
    }

    /** Registers one child. Never resets the child list: earlier entries
        stay as they were. A specification without a start function fails
        after its state slot has been appended. */
    method Process(spec: ChildProcessSpecification) returns (o: Outcome)
      requires Valid()
      modifies this`processes, this`states, this`processIndex
      ensures Valid()
      ensures Children() == Register(old(Children()), spec)
      ensures o == if spec.start.None? then Fail(MissingStart) else Pass
    {
      var id := |processes| + 1;
      states := states + [State(StoppedBeforeStart)];
      var name := spec.name;
      if name == "" {
        name := GeneratedName(id);
      }
      if name in processIndex {
        name := name + Suffix(id);
      }
      var restart := spec.restart;
      if restart == None {
        restart := Some(Permanent);
      }
      var shutdown := spec.shutdown;
      if shutdown == None {
        shutdown := Some(Timeout(DefaultChildProcessTimeout));
      }
      if spec.start == None {
        o := Fail(MissingStart);
        assert Children() == Register(old(Children()), spec);
        RegisterPreservesWf(old(Children()), spec);
        return;
      }
      var entry := spec.(name := name, restart := restart, shutdown := shutdown);
      assert entry == Completed(spec, processIndex, id);
      processes := processes + [entry];
      processIndex := processIndex[name := id - 1];
      o := Pass;
      assert Children() == Register(old(Children()), spec);
      RegisterPreservesWf(old(Children()), spec);
    }

    /** Registers one Permanent child per argument, in order, each with a
        generated name. The first missing start function aborts the rest. */
    method Processes(ps: seq<Option<ChildProcess>>) returns (o: Outcome)
      requires Valid()
      modifies this`processes, this`states, this`processIndex
      ensures Valid()
      ensures (Children(), o) == RegisterEach(old(Children()), PermanentSpecs(ps))
    {
      ghost var specs := PermanentSpecs(ps);
      var i := 0;
      while i < |ps|
        invariant 0 <= i <= |ps|
        invariant Valid()
        invariant RegisterEach(old(Children()), specs) == RegisterEach(Children(), specs[i..])
      {
        assert specs[i..][0] == PermanentSpec(ps[i]) && specs[i..][1..] == specs[i + 1..];
        o := Process(PermanentSpec(ps[i]));
        if o.Fail? {
          return;
        }
        i := i + 1;
      }
      o := Pass;
    }

    /** Registers a nested tree as a Permanent child that is given
        unlimited time to shut down. */
    method WithTree(subTree: Tree?) returns (o: Outcome)
      requires Valid()
      modifies this`processes, this`states, this`processIndex
      ensures Valid()
      ensures Children() == Register(old(Children()), SubtreeSpec(subTree))
      ensures o == Pass
    {
      o := Process(SubtreeSpec(subTree));
    }
  }

  /** A Process option value. The option keeps the specification it was
      built from and rewrites it on every application (final name and
      default policies), so applying the same value again starts from the
      rewritten specification, not from the one it was built with. */
  class ProcessOption {
    var spec: ChildProcessSpecification

    constructor (spec: ChildProcessSpecification)
      ensures this.spec == spec
    {
      this.spec := spec;
    }

    method Apply(t: Tree) returns (o: Outcome)
      requires t.Valid()
      modifies this`spec, t`processes, t`states, t`processIndex
      ensures t.Valid()
      ensures t.Children() == Register(old(t.Children()), old(spec))
      ensures spec == Completed(old(spec), old(t.processIndex), old(|t.processes|) + 1)
      ensures o == if old(spec).start.None? then Fail(MissingStart) else Pass
    {
      var given := spec;
      spec := Completed(given, t.processIndex, |t.processes| + 1);
      o := t.Process(given);
    }
  }
}
