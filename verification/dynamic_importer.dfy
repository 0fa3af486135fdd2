/** `Importer`: a lazy cache of imported modules keyed by module name. The
    import machinery is an oracle from a dotted path to what importing it
    gives. */
module DynamicImporter {
  import opened Wrappers

  /** What `importlib.import_module(path)` does. */
  datatype ImportOutcome<M> = Loaded(mod: M) | ModuleNotFound | OtherError(error: string)

  /** The importer's state: `imported_modules`. */
  datatype Importer<M> = Importer(cache: map<string, M>)

  function Init<M>(): (imp: Importer<M>)
    ensures |imp.cache| == 0
  {
    Importer(map[])
  }

  /** How a call ended: the module, the ImportError raised for a missing
      module, or another error passing through. */
  datatype Outcome<M> = Imported(mod: M) | ImportError(message: string) | Propagated(error: string)

  /** The state after a call, what the call ended with, and the path it
      tried to import, if any. */
  datatype Step<M> = Step(state: Importer<M>, outcome: Outcome<M>, attempted: Option<string>)

  function LibPath(library: string, moduleName: string): string
  {
    library + "." + moduleName
  }

  function CouldNotImport(path: string): string
  {
    "Could not import " + path
  }

  /** `import_mod_from_lib(library, module_name)`. */
  function ImportModFromLib<M>(imp: Importer<M>, library: string, moduleName: string,
                               oracle: string -> ImportOutcome<M>): (r: Step<M>)
    ensures moduleName in imp.cache ==> r == Step(imp, Imported(imp.cache[moduleName]), None)
    ensures moduleName !in imp.cache ==> r.attempted == Some(LibPath(library, moduleName))
    ensures r.outcome.Imported? <==> moduleName in r.state.cache
    ensures r.outcome.Imported? ==> r.state.cache == imp.cache[moduleName := r.outcome.mod]
    ensures !r.outcome.Imported? ==> r.state == imp
    ensures r.outcome.ImportError? <==>
              moduleName !in imp.cache && oracle(LibPath(library, moduleName)).ModuleNotFound?
    ensures r.outcome.ImportError? ==> r.outcome.message == CouldNotImport(LibPath(library, moduleName))
    ensures moduleName !in imp.cache && oracle(LibPath(library, moduleName)).Loaded? ==>
              r == Step(Importer(imp.cache[moduleName := oracle(LibPath(library, moduleName)).mod]),
                        Imported(oracle(LibPath(library, moduleName)).mod), Some(LibPath(library, moduleName)))
    ensures moduleName !in imp.cache && oracle(LibPath(library, moduleName)).OtherError? ==>
              r == Step(imp, Propagated(oracle(LibPath(library, moduleName)).error), Some(LibPath(library, moduleName)))
  {
    if moduleName in imp.cache then Step(imp, Imported(imp.cache[moduleName]), None)
    else
      var path := LibPath(library, moduleName);
      match oracle(path)
      case Loaded(m) => Step(Importer(imp.cache[moduleName := m]), Imported(m), Some(path))
      case ModuleNotFound => Step(imp, ImportError(CouldNotImport(path)), Some(path))
      case OtherError(e) => Step(imp, Propagated(e), Some(path))
  }

  /** A hit ignores the library: any library gives the cached module, and
      nothing is imported. */
  lemma HitIgnoresLibrary<M>(imp: Importer<M>, lib1: string, lib2: string, moduleName: string,
                             o1: string -> ImportOutcome<M>, o2: string -> ImportOutcome<M>)
    requires moduleName in imp.cache
    ensures ImportModFromLib(imp, lib1, moduleName, o1) == ImportModFromLib(imp, lib2, moduleName, o2)
  {
  }

  /** After a successful call, repeating it returns the same module, imports
      nothing and leaves the cache as it is. */
  lemma Idempotent<M>(imp: Importer<M>, library: string, moduleName: string, oracle: string -> ImportOutcome<M>)
    requires ImportModFromLib(imp, library, moduleName, oracle).outcome.Imported?
    ensures var first := ImportModFromLib(imp, library, moduleName, oracle);
            var second := ImportModFromLib(first.state, library, moduleName, oracle);
            second == Step(first.state, first.outcome, None)
  {
  }

  /** A sequence of calls, each a (library, module name) pair. */
  function Run<M>(imp: Importer<M>, calls: seq<(string, string)>, oracle: string -> ImportOutcome<M>): Importer<M>
    decreases |calls|
  {
    if |calls| == 0 then imp
    else Run(ImportModFromLib(imp, calls[0].0, calls[0].1, oracle).state, calls[1..], oracle)
  }

  /** Every cached module is what the oracle gave for its name under some
      library. */
  ghost predicate Faithful<M>(imp: Importer<M>, oracle: string -> ImportOutcome<M>)
  {
    forall name | name in imp.cache :: exists lib :: oracle(LibPath(lib, name)) == Loaded(imp.cache[name])
  }

  /** The cache only grows: an entry, once made, is never replaced or
      removed, and every new key is a module name that was asked for. Every
      entry stays one the oracle produced. */
  lemma {:induction false} RunKeepsEntries<M>(imp: Importer<M>, calls: seq<(string, string)>, oracle: string -> ImportOutcome<M>)
    requires Faithful(imp, oracle)
    ensures var after := Run(imp, calls, oracle);
            && (forall name | name in imp.cache :: name in after.cache && after.cache[name] == imp.cache[name])
            && (forall name | name in after.cache && name !in imp.cache :: exists i | 0 <= i < |calls| :: calls[i].1 == name)
            && Faithful(after, oracle)
    decreases |calls|
  {
    if |calls| > 0 {
      var step := ImportModFromLib(imp, calls[0].0, calls[0].1, oracle);
      if step.outcome.Imported? && calls[0].1 !in imp.cache {
        assert oracle(LibPath(calls[0].0, calls[0].1)) == Loaded(step.state.cache[calls[0].1]);
      }
      assert Faithful(step.state, oracle);
      RunKeepsEntries(step.state, calls[1..], oracle);
      var after := Run(imp, calls, oracle);
      forall name | name in after.cache && name !in imp.cache
        ensures exists i | 0 <= i < |calls| :: calls[i].1 == name
      {
        if name in step.state.cache {
          assert calls[0].1 == name;
        } else {
          var i :| 0 <= i < |calls[1..]| && calls[1..][i].1 == name;
          assert calls[i + 1].1 == name;
        }
      }
    }
  }
}
