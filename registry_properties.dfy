/** What child registration guarantees about names and the name index, and
    what it does not: the collision suffix is applied once, so names are not
    always unique, and the index then keeps only the newest registration. */
module RegistryProperties {
  import opened Names
  import opened TreeOptions

  /** No two registered children share a name. */
  ghost predicate Distinct(ps: seq<ChildProcessSpecification>) {
    forall i, j :: 0 <= i < j < |ps| ==> ps[i].name != ps[j].name
  }

  /** The index finds every child under its own name. */
  ghost predicate IndexExact(r: Registry) {
    forall i :: 0 <= i < |r.processes| ==>
      r.processes[i].name in r.processIndex && r.processIndex[r.processes[i].name] == i
  }

  /** In a well-formed registry the index finds every child exactly when no
      two children share a name. */
  lemma IndexExactIffDistinct(r: Registry)
    requires Wf(r)
    ensures IndexExact(r) <==> Distinct(r.processes)
  {
  }

  /** Registering a child keeps the names distinct exactly when its final
      name was not registered yet, i.e. unless both the requested (or
      generated) name and its suffixed form were taken. */
  lemma RegisterKeepsDistinct(r: Registry, spec: ChildProcessSpecification)
    requires Wf(r) && Distinct(r.processes) && spec.start.Some?
    ensures var name := FinalName(spec.name, r.processIndex, |r.processes| + 1);
      Distinct(Register(r, spec).processes) <==> name !in r.processIndex
  {
    var m := |r.processes|;
    var name := FinalName(spec.name, r.processIndex, m + 1);
    var ps' := Register(r, spec).processes;
    assert ps' == r.processes + [ps'[m]] && ps'[m].name == name;
    if name in r.processIndex {
      var k := r.processIndex[name];
      assert NewestWith(r.processes, name, k);
      assert ps'[k].name == ps'[m].name;
    } else {
      forall i | 0 <= i < m
        ensures ps'[i].name != ps'[m].name
      {
        assert r.processes[i].name in r.processIndex;
      }
    }
  }

  /** Children 1..|ps| carry the generated names "childproc 1", ... */
  ghost predicate GeneratedNames(ps: seq<ChildProcessSpecification>) {
    forall i :: 0 <= i < |ps| ==> ps[i].name == GeneratedName(i + 1)
  }

  lemma GeneratedNamesDistinct(ps: seq<ChildProcessSpecification>)
    requires GeneratedNames(ps)
    ensures Distinct(ps)
  {
    forall i, j | 0 <= i < j < |ps|
      ensures ps[i].name != ps[j].name
    {
      GeneratedNameInjective(i + 1, j + 1);
    }
  }

  /** The entry Processes stores for its argument p as child number id. */
  function GeneratedEntry(id: nat, p: Option<ChildProcess>): ChildProcessSpecification {
    ChildProcessSpecification(GeneratedName(id), Some(Permanent), Some(Timeout(DefaultChildProcessTimeout)), p)
  }

  /** The entries for ps as children number first, first + 1, ... */
  function GeneratedEntries(first: nat, ps: seq<Option<ChildProcess>>): seq<ChildProcessSpecification>
    decreases |ps|
  {
    if ps == [] then [] else [GeneratedEntry(first, ps[0])] + GeneratedEntries(first + 1, ps[1..])
  }

  lemma {:induction false} GeneratedEntriesNames(r: seq<ChildProcessSpecification>, ps: seq<Option<ChildProcess>>)
    requires GeneratedNames(r)
    ensures GeneratedNames(r + GeneratedEntries(|r| + 1, ps))
    decreases |ps|
  {
    if ps != [] {
      var r1 := r + [GeneratedEntry(|r| + 1, ps[0])];
      GeneratedEntriesNames(r1, ps[1..]);
      assert r + GeneratedEntries(|r| + 1, ps) == r1 + GeneratedEntries(|r1| + 1, ps[1..]);
    }
  }

  /** Every index entry leads to a child of that name: the part of the
      registry invariant that naming relies on. */
  ghost predicate IndexSound(r: Registry) {
    forall n :: n in r.processIndex ==>
      0 <= r.processIndex[n] < |r.processes| && r.processes[r.processIndex[n]].name == n
  }

  lemma RegisterKeepsIndexSound(r: Registry, spec: ChildProcessSpecification)
    requires IndexSound(r)
    ensures IndexSound(Register(r, spec))
  {
  }

  /** When every child so far carries its generated name, the next generated
      name is free, so an unnamed child keeps it without a suffix. */
  lemma RegisterNextGenerated(r: Registry, p: Option<ChildProcess>)
    requires IndexSound(r) && GeneratedNames(r.processes) && p.Some?
    ensures Register(r, PermanentSpec(p)).processes == r.processes + [GeneratedEntry(|r.processes| + 1, p)]
    ensures GeneratedNames(Register(r, PermanentSpec(p)).processes)
  {
    var m := |r.processes|;
    if GeneratedName(m + 1) in r.processIndex {
      GeneratedNameInjective(r.processIndex[GeneratedName(m + 1)] + 1, m + 1);
    }
    GeneratedEntriesNames(r.processes, [p]);
    assert GeneratedEntries(m + 1, [p]) == [GeneratedEntry(m + 1, p)];
  }

  lemma AppendAssociative<T>(a: seq<T>, b: seq<T>, c: seq<T>)
    ensures (a + b) + c == a + (b + c)
  {
  }

  lemma GeneratedEntriesCons(first: nat, ps: seq<Option<ChildProcess>>)
    requires ps != []
    ensures GeneratedEntries(first, ps) == [GeneratedEntry(first, ps[0])] + GeneratedEntries(first + 1, ps[1..])
  {
  }

  /** The first of the Processes registrations, on a tree whose children all
      carry generated names. */
  lemma ProcessesFirstStep(r: Registry, ps: seq<Option<ChildProcess>>)
    requires IndexSound(r) && GeneratedNames(r.processes)
    requires ps != [] && ps[0].Some?
    ensures var r1 := Register(r, PermanentSpec(ps[0]));
      && RegisterEach(r, PermanentSpecs(ps)) == RegisterEach(r1, PermanentSpecs(ps[1..]))
      && r1.processes == r.processes + [GeneratedEntry(|r.processes| + 1, ps[0])]
      && IndexSound(r1) && GeneratedNames(r1.processes)
  {
    var specs := PermanentSpecs(ps);
    assert specs[0] == PermanentSpec(ps[0]) && specs[1..] == PermanentSpecs(ps[1..]);
    RegisterNextGenerated(r, ps[0]);
    RegisterKeepsIndexSound(r, PermanentSpec(ps[0]));
  }

  /** Processes on a tree whose children all carry generated names succeeds
      when every argument is present, and appends, in argument order, one
      entry per argument with the next generated name, Permanent restart,
      the default shutdown timeout and that argument as start function. */
  lemma {:induction false} ProcessesGeneratesNames(r: Registry, ps: seq<Option<ChildProcess>>)
    requires IndexSound(r) && GeneratedNames(r.processes)
    requires forall i :: 0 <= i < |ps| ==> ps[i].Some?
    ensures var res := RegisterEach(r, PermanentSpecs(ps));
      res.1 == Pass && res.0.processes == r.processes + GeneratedEntries(|r.processes| + 1, ps)
    decreases |ps|
  {
    if ps != [] {
      var m := |r.processes|;
      var r1 := Register(r, PermanentSpec(ps[0]));
      ProcessesFirstStep(r, ps);
      var e := GeneratedEntry(m + 1, ps[0]);
      assert r1.processes == r.processes + [e] && |r1.processes| == m + 1;
      ProcessesGeneratesNames(r1, ps[1..]);
      var rest := GeneratedEntries(m + 2, ps[1..]);
      GeneratedEntriesCons(m + 1, ps);
      AppendAssociative(r.processes, [e], rest);
    }
  }

  /** On a tree with no children yet, Processes gives every child a distinct
      name, and the index finds each one. */
  lemma ProcessesOnEmptyTreeIndexesAll(ps: seq<Option<ChildProcess>>)
    requires forall i :: 0 <= i < |ps| ==> ps[i].Some?
    ensures var res := RegisterEach(EmptyRegistry, PermanentSpecs(ps));
      Distinct(res.0.processes) && IndexExact(res.0)
  {
    var res := RegisterEach(EmptyRegistry, PermanentSpecs(ps));
    var none: seq<ChildProcessSpecification> := [];
    ProcessesGeneratesNames(EmptyRegistry, ps);
    GeneratedEntriesNames(none, ps);
    assert res.0.processes == none + GeneratedEntries(|none| + 1, ps);
    GeneratedNamesDistinct(res.0.processes);
    RegisterEachPreservesWf(EmptyRegistry, PermanentSpecs(ps));
    IndexExactIffDistinct(res.0);
  }

  function Named(name: string, token: nat): ChildProcessSpecification {
    ChildProcessSpecification(name, None, None, Some(Func(token)))
  }

  /** The suffix is applied once: registering "x 3", "x" and "x" gives the
      third child the name "x 3" again. The index then sends "x 3" to the
      third child, and no name leads to the first one. */
  lemma SuffixCanCollide()
    ensures var r := Register(Register(Register(EmptyRegistry, Named("x 3", 0)), Named("x", 1)), Named("x", 2));
      && |r.processes| == 3
      && r.processes[0].name == r.processes[2].name == "x 3"
      && r.processIndex == map["x 3" := 2, "x" := 1]
      && !Distinct(r.processes)
      && forall n :: n in r.processIndex ==> r.processIndex[n] != 0
  {
  }

  /** Applying one unnamed Process option value twice: the first application
      rewrites its name to "childproc 1", which is then taken, so the second
      child is "childproc 1 2". A freshly built option would give "childproc 2". */
  lemma ReappliedOptionGetsSuffix(f: ChildProcess)
    ensures var s := ChildProcessSpecification("", None, None, Some(f));
      var r1 := Register(EmptyRegistry, s);
      var r2 := Register(r1, Completed(s, EmptyRegistry.processIndex, 1));
      && r2.processes[0].name == "childproc 1"
      && r2.processes[1].name == "childproc 1 2"
      && Register(r1, s).processes[1].name == "childproc 2"
  {
    assert Decimal(1) == "1" && Decimal(2) == "2";
    var s := ChildProcessSpecification("", None, None, Some(f));
    var r1 := Register(EmptyRegistry, s);
    assert r1.processes[0].name == GeneratedName(1) == "childproc 1";
    assert "childproc 1" in r1.processIndex;
    var s1 := Completed(s, EmptyRegistry.processIndex, 1);
    assert s1.name == "childproc 1";
    var r2 := Register(r1, s1);
    assert r2.processes[0] == r1.processes[0];
    assert r2.processes[1].name == "childproc 1" + Suffix(2) == "childproc 1 2";
    assert GeneratedName(2) == "childproc 2" && "childproc 2" !in r1.processIndex;
  }
}
