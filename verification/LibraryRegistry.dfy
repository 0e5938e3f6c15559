/** The registry of deployed contracts and the library deployers memoised by it. */
module LibraryRegistry {
  import opened Linker

  type Address = string

  const RESERVE_LOGIC := "ReserveLogic"
  const GENERIC_LOGIC := "GenericLogic"
  const VALIDATION_LOGIC := "ValidationLogic"

  const SWAP_ADAPTERS: set<string> := {
    "UniswapAdapter", "CurveswapAdapter", "BalancerswapAdapter",
    "UniswapAdapter2", "CurveswapAdapter2", "BalancerswapAdapter2"
  }

  const LIBRARIES: set<string> := SWAP_ADAPTERS + {RESERVE_LOGIC, GENERIC_LOGIC, VALIDATION_LOGIC}

  /** A contract creation on some network. */
  datatype Deployment = Deployment(id: string, network: string, address: Address, code: string)

  /** The JSON file, keyed by contract id and network, and the creations so far. */
  datatype State = State(db: map<(string, string), Address>, chain: seq<Deployment>)

  const EMPTY := State(map[], [])

  /** What the deployers are given: compiled artifacts, and the address of the n-th creation. */
  datatype Environment = Environment(artifactOf: string -> Artifact, addressOf: nat -> Address)

  ghost predicate GivesAddresses(env: Environment) {
    forall n :: env.addressOf(n) != ""
  }

  /** The recorded address, or the empty (falsy) one. */
  function Recorded(st: State, id: string, network: string): Address {
    if (id, network) in st.db then st.db[(id, network)] else ""
  }

  // ---------- one call ----------

  /** Deploy, and record the address. */
  function Deployed(env: Environment, st: State, id: string, network: string, code: string): State {
    var address := env.addressOf(|st.chain|);
    State(st.db[(id, network) := address], st.chain + [Deployment(id, network, address, code)])
  }

  /** Deploy unless an address is recorded. */
  function Ensured(env: Environment, st: State, id: string, network: string, code: string): State {
    if Recorded(st, id, network) != "" then st else Deployed(env, st, id, network, code)
  }

  datatype Call =
    | ReserveLogicLibrary
    | GenericLogic(reserveLogic: Address)
    | ValidationLogic(reserveLogic: Address, genericLogic: Address)
    | SturdyLibraries
    | SwapAdapter(id: string)
    | InsertInDb(id: string, address: Address)

  function GenericLogicCode(env: Environment, reserveLogic: Address): string {
    Link(env.artifactOf(GENERIC_LOGIC), map[RESERVE_LOGIC := reserveLogic])
  }

  function ValidationLogicCode(env: Environment, reserveLogic: Address, genericLogic: Address): string {
    Link(env.artifactOf(VALIDATION_LOGIC), map[RESERVE_LOGIC := reserveLogic, GENERIC_LOGIC := genericLogic])
  }

  function Step(env: Environment, st: State, network: string, call: Call): State
    decreases call.SturdyLibraries?
  {
    match call
    case ReserveLogicLibrary =>
      Ensured(env, st, RESERVE_LOGIC, network, env.artifactOf(RESERVE_LOGIC).bytecode)
    case GenericLogic(rl) =>
      Ensured(env, st, GENERIC_LOGIC, network, GenericLogicCode(env, rl))
    case ValidationLogic(rl, gl) =>
      Ensured(env, st, VALIDATION_LOGIC, network, ValidationLogicCode(env, rl, gl))
    case SturdyLibraries =>
      var st1 := Step(env, st, network, ReserveLogicLibrary);
      var st2 := Step(env, st1, network, GenericLogic(Recorded(st1, RESERVE_LOGIC, network)));
      Step(env, st2, network, ValidationLogic(Recorded(st1, RESERVE_LOGIC, network),
                                              Recorded(st2, GENERIC_LOGIC, network)))
    case SwapAdapter(id) =>
      Ensured(env, st, id, network, Link(env.artifactOf(id), map[]))
    case InsertInDb(id, address) =>
      st.(db := st.db[(id, network) := address])
  }

  /** The deployers as the program runs them, over one registry. */
  class LibraryDeployer {
    const env: Environment
    var db: map<(string, string), Address>
    var chain: seq<Deployment>

    constructor (env: Environment)
      ensures this.env == env && Current() == EMPTY
    {
      this.env := env;
      db := map[];
      chain := [];
    }

    ghost function Current(): State
      reads this
    {
      State(db, chain)
    }

    method SavedAddress(id: string, network: string) returns (address: Address)
      ensures address == Recorded(Current(), id, network)
    {
      address := if (id, network) in db then db[(id, network)] else "";
    }

    method InsertContractAddressInDb(network: string, id: string, address: Address)
      modifies this
      ensures Current() == Step(env, old(Current()), network, InsertInDb(id, address))
    {
      db := db[(id, network) := address];
    }

    method DeployAndSave(network: string, id: string, code: string) returns (address: Address)
      modifies this
      ensures Current() == Deployed(env, old(Current()), id, network, code)
      ensures address == Recorded(Current(), id, network)
    {
      address := env.addressOf(|chain|);
      chain := chain + [Deployment(id, network, address, code)];
      db := db[(id, network) := address];
    }

    method DeployReserveLogicLibrary(network: string) returns (address: Address)
      modifies this
      ensures Current() == Step(env, old(Current()), network, ReserveLogicLibrary)
      ensures address == Recorded(Current(), RESERVE_LOGIC, network)
      ensures GivesAddresses(env) ==> address != ""
    {
      address := SavedAddress(RESERVE_LOGIC, network);
      if address != "" { return; }
      address := DeployAndSave(network, RESERVE_LOGIC, env.artifactOf(RESERVE_LOGIC).bytecode);
    }

    method DeployGenericLogic(network: string, reserveLogic: Address) returns (address: Address)
      modifies this
      ensures Current() == Step(env, old(Current()), network, GenericLogic(reserveLogic))
      ensures address == Recorded(Current(), GENERIC_LOGIC, network)
      ensures GivesAddresses(env) ==> address != ""
    {
      address := SavedAddress(GENERIC_LOGIC, network);
      if address != "" { return; }
      var code := LinkBytecode(env.artifactOf(GENERIC_LOGIC), map[RESERVE_LOGIC := reserveLogic]);
      address := DeployAndSave(network, GENERIC_LOGIC, code);
    }

    method DeployValidationLogic(network: string, reserveLogic: Address, genericLogic: Address)
      returns (address: Address)
      modifies this
      ensures Current() == Step(env, old(Current()), network, ValidationLogic(reserveLogic, genericLogic))
      ensures address == Recorded(Current(), VALIDATION_LOGIC, network)
      ensures GivesAddresses(env) ==> address != ""
    {
      address := SavedAddress(VALIDATION_LOGIC, network);
      if address != "" { return; }
      var code := LinkBytecode(env.artifactOf(VALIDATION_LOGIC),
                               map[RESERVE_LOGIC := reserveLogic, GENERIC_LOGIC := genericLogic]);
      address := DeployAndSave(network, VALIDATION_LOGIC, code);
    }

    method DeploySturdyLibraries(network: string)
      returns (validationLogic: Address, reserveLogic: Address)
      modifies this
      ensures Current() == Step(env, old(Current()), network, SturdyLibraries)
      ensures validationLogic == Recorded(Current(), VALIDATION_LOGIC, network)
      ensures reserveLogic == Recorded(Current(), RESERVE_LOGIC, network)
      ensures GivesAddresses(env) ==> validationLogic != "" && reserveLogic != ""
    {
      reserveLogic := DeployReserveLogicLibrary(network);
      var genericLogic := DeployGenericLogic(network, reserveLogic);
      validationLogic := DeployValidationLogic(network, reserveLogic, genericLogic);
    }

    method DeploySwapAdapterLibrary(network: string, id: string) returns (address: Address)
      modifies this
      ensures Current() == Step(env, old(Current()), network, SwapAdapter(id))
      ensures address == Recorded(Current(), id, network)
      ensures GivesAddresses(env) ==> address != ""
    {
      address := SavedAddress(id, network);
      if address != "" { return; }
      var code := LinkBytecode(env.artifactOf(id), map[]);
      address := DeployAndSave(network, id, code);
    }
  }

  // ---------- what one call leaves behind ----------

  /** The id was recorded and nothing changed, or the code was created once more and recorded there. */
  predicate DeployedOnce(env: Environment, st: State, st': State, id: string, network: string, code: string) {
    if Recorded(st, id, network) != "" then st' == st
    else
      && st'.chain == st.chain + [Deployment(id, network, env.addressOf(|st.chain|), code)]
      && st'.db == st.db[(id, network) := env.addressOf(|st.chain|)]
  }

  /** Afterwards the id of a single deployer is recorded, and its code was created unless it was before. */
  lemma SingleCallRecords(env: Environment, st: State, network: string, call: Call)
    requires GivesAddresses(env)
    ensures var st' := Step(env, st, network, call);
      match call
      case ReserveLogicLibrary =>
        && Recorded(st', RESERVE_LOGIC, network) != ""
        && DeployedOnce(env, st, st', RESERVE_LOGIC, network, env.artifactOf(RESERVE_LOGIC).bytecode)
      case GenericLogic(rl) =>
        && Recorded(st', GENERIC_LOGIC, network) != ""
        && DeployedOnce(env, st, st', GENERIC_LOGIC, network,
                        Link(env.artifactOf(GENERIC_LOGIC), map[RESERVE_LOGIC := rl]))
      case ValidationLogic(rl, gl) =>
        && Recorded(st', VALIDATION_LOGIC, network) != ""
        && DeployedOnce(env, st, st', VALIDATION_LOGIC, network,
                        Link(env.artifactOf(VALIDATION_LOGIC), map[RESERVE_LOGIC := rl, GENERIC_LOGIC := gl]))
      case SwapAdapter(id) =>
        Recorded(st', id, network) != "" && DeployedOnce(env, st, st', id, network, Link(env.artifactOf(id), map[]))
      case InsertInDb(id, address) =>
        st'.chain == st.chain && st'.db == st.db[(id, network) := address]
      case SturdyLibraries => true
  {
  }

  /** Deploying the libraries leaves all three recorded, from whatever state. */
  lemma SturdyLibrariesAreRecorded(env: Environment, st: State, network: string)
    requires GivesAddresses(env)
    ensures var st' := Step(env, st, network, SturdyLibraries);
      && Recorded(st', RESERVE_LOGIC, network) != ""
      && Recorded(st', GENERIC_LOGIC, network) != ""
      && Recorded(st', VALIDATION_LOGIC, network) != ""
  {
    var st1 := Step(env, st, network, ReserveLogicLibrary);
    SingleCallRecords(env, st, network, ReserveLogicLibrary);
    var rl := Recorded(st1, RESERVE_LOGIC, network);
    SingleCallRecords(env, st1, network, GenericLogic(rl));
    var st2 := Step(env, st1, network, GenericLogic(rl));
    SingleCallRecords(env, st2, network, ValidationLogic(rl, Recorded(st2, GENERIC_LOGIC, network)));
  }

  /** From an empty registry that creates ReserveLogic, GenericLogic linked to it, and ValidationLogic
      linked to both, and nothing else. */
  lemma SturdyLibrariesFromEmpty(env: Environment, network: string)
    requires GivesAddresses(env)
    ensures var rl, gl, vl := env.addressOf(0), env.addressOf(1), env.addressOf(2);
      var st := Step(env, EMPTY, network, SturdyLibraries);
      && st.chain == [
           Deployment(RESERVE_LOGIC, network, rl, env.artifactOf(RESERVE_LOGIC).bytecode),
           Deployment(GENERIC_LOGIC, network, gl, Link(env.artifactOf(GENERIC_LOGIC), map[RESERVE_LOGIC := rl])),
           Deployment(VALIDATION_LOGIC, network, vl,
                      Link(env.artifactOf(VALIDATION_LOGIC), map[RESERVE_LOGIC := rl, GENERIC_LOGIC := gl]))]
      && st.db == map[(RESERVE_LOGIC, network) := rl, (GENERIC_LOGIC, network) := gl, (VALIDATION_LOGIC, network) := vl]
  {
    var st1 := Step(env, EMPTY, network, ReserveLogicLibrary);
    SingleCallRecords(env, EMPTY, network, ReserveLogicLibrary);
    var rl := Recorded(st1, RESERVE_LOGIC, network);
    SingleCallRecords(env, st1, network, GenericLogic(rl));
    var st2 := Step(env, st1, network, GenericLogic(rl));
    SingleCallRecords(env, st2, network, ValidationLogic(rl, Recorded(st2, GENERIC_LOGIC, network)));
  }

  // ---------- whole runs ----------

  type Run = seq<(string, Call)>

  function After(env: Environment, st: State, run: Run): State
    decreases |run|
  {
    if run == [] then st else After(env, Step(env, st, run[0].0, run[0].1), run[1..])
  }

  /** Writes of other contracts stay off the libraries' own keys. */
  predicate Legal(call: Call) {
    match call
    case SwapAdapter(id) => id in SWAP_ADAPTERS
    case InsertInDb(id, _) => id !in LIBRARIES
    case _ => true
  }

  predicate AllLegal(run: Run) {
    forall c <- run :: Legal(c.1)
  }

  /** Every library was created at most once on each network, and the file records exactly the
      libraries that were created, under the address they were created at. */
  ghost predicate Consistent(st: State) {
    && (forall i, j | 0 <= i < j < |st.chain| ::
          (st.chain[i].id, st.chain[i].network) != (st.chain[j].id, st.chain[j].network))
    && (forall d <- st.chain :: d.id in LIBRARIES && d.address != "" && Recorded(st, d.id, d.network) == d.address)
    && (forall id, network :: id in LIBRARIES && Recorded(st, id, network) != "" ==> Created(st, id, network))
  }

  ghost predicate Created(st: State, id: string, network: string) {
    exists d <- st.chain :: d.id == id && d.network == network
  }

  lemma EnsuredIsConsistent(env: Environment, st: State, id: string, network: string, code: string)
    requires GivesAddresses(env) && Consistent(st) && id in LIBRARIES
    ensures Consistent(Ensured(env, st, id, network, code))
    ensures Recorded(Ensured(env, st, id, network, code), id, network) != ""
  {
    var st' := Ensured(env, st, id, network, code);
    if Recorded(st, id, network) == "" {
      var created := st'.chain[|st.chain|];
      assert created in st'.chain;
      forall i, n | i in LIBRARIES && Recorded(st', i, n) != "" ensures Created(st', i, n) {
        if (i, n) != (id, network) {
          assert Created(st, i, n);
        }
      }
    }
  }

  lemma StepIsConsistent(env: Environment, st: State, network: string, call: Call)
    requires GivesAddresses(env) && Consistent(st) && Legal(call)
    ensures Consistent(Step(env, st, network, call))
    decreases call.SturdyLibraries?
  {
    match call
    case ReserveLogicLibrary =>
      EnsuredIsConsistent(env, st, RESERVE_LOGIC, network, env.artifactOf(RESERVE_LOGIC).bytecode);
    case GenericLogic(rl) =>
      EnsuredIsConsistent(env, st, GENERIC_LOGIC, network, GenericLogicCode(env, rl));
    case ValidationLogic(rl, gl) =>
      EnsuredIsConsistent(env, st, VALIDATION_LOGIC, network, ValidationLogicCode(env, rl, gl));
    case SturdyLibraries =>
      var st1 := Step(env, st, network, ReserveLogicLibrary);
      StepIsConsistent(env, st, network, ReserveLogicLibrary);
      var rl := Recorded(st1, RESERVE_LOGIC, network);
      StepIsConsistent(env, st1, network, GenericLogic(rl));
      var st2 := Step(env, st1, network, GenericLogic(rl));
      StepIsConsistent(env, st2, network, ValidationLogic(rl, Recorded(st2, GENERIC_LOGIC, network)));
    case SwapAdapter(id) =>
      EnsuredIsConsistent(env, st, id, network, Link(env.artifactOf(id), map[]));
    case InsertInDb(id, address) =>
      var st' := Step(env, st, network, call);
      forall i, n | i in LIBRARIES && Recorded(st', i, n) != "" ensures Created(st', i, n) {
        assert Created(st, i, n);
      }
  }

  /** Over every run from a consistent registry. */
  lemma {:induction false} RunsAreConsistent(env: Environment, st: State, run: Run)
    requires GivesAddresses(env) && Consistent(st) && AllLegal(run)
    ensures Consistent(After(env, st, run))
    decreases |run|
  {
    if run == [] {
    } else {
      StepIsConsistent(env, st, run[0].0, run[0].1);
      RunsAreConsistent(env, Step(env, st, run[0].0, run[0].1), run[1..]);
    }
  }

  /** So after every run from an empty registry each library exists at most once per network, and a
      recorded address is where it was created. */
  lemma RegistryRecordsCreations(env: Environment, run: Run, id: string, network: string)
    returns (d: Deployment)
    requires GivesAddresses(env) && AllLegal(run) && id in LIBRARIES
    requires Recorded(After(env, EMPTY, run), id, network) != ""
    ensures IsTheOnly(After(env, EMPTY, run), id, network, d)
    ensures d.address == Recorded(After(env, EMPTY, run), id, network)
  {
    RunsAreConsistent(env, EMPTY, run);
    var st := After(env, EMPTY, run);
    assert Created(st, id, network);
    d :| d in st.chain && d.id == id && d.network == network;
    OnlyCreation(st, d);
  }

  ghost predicate IsTheOnly(st: State, id: string, network: string, d: Deployment) {
    && d in st.chain && d.id == id && d.network == network
    && forall other <- st.chain | other.id == id && other.network == network :: other == d
  }

  lemma OnlyCreation(st: State, d: Deployment)
    requires Consistent(st) && d in st.chain
    ensures IsTheOnly(st, d.id, d.network, d)
  {
    var k :| 0 <= k < |st.chain| && st.chain[k] == d;
    forall other | other in st.chain && other.id == d.id && other.network == d.network ensures other == d {
      var j :| 0 <= j < |st.chain| && st.chain[j] == other;
      assert j == k;
    }
  }

  /** Nothing is removed from the chain and no recorded library address is overwritten. */
  ghost predicate Grows(st: State, st': State) {
    && st.chain <= st'.chain
    && forall id, network :: id in LIBRARIES && Recorded(st, id, network) != ""
                             ==> Recorded(st', id, network) == Recorded(st, id, network)
  }

  lemma EnsuredGrows(env: Environment, st: State, id: string, network: string, code: string)
    ensures Grows(st, Ensured(env, st, id, network, code))
  {
  }

  lemma StepGrows(env: Environment, st: State, network: string, call: Call)
    requires Legal(call)
    ensures Grows(st, Step(env, st, network, call))
    decreases call.SturdyLibraries?
  {
    match call
    case ReserveLogicLibrary =>
      EnsuredGrows(env, st, RESERVE_LOGIC, network, env.artifactOf(RESERVE_LOGIC).bytecode);
    case GenericLogic(rl) =>
      EnsuredGrows(env, st, GENERIC_LOGIC, network, GenericLogicCode(env, rl));
    case ValidationLogic(rl, gl) =>
      EnsuredGrows(env, st, VALIDATION_LOGIC, network, ValidationLogicCode(env, rl, gl));
    case SturdyLibraries =>
      var st1 := Step(env, st, network, ReserveLogicLibrary);
      var rl := Recorded(st1, RESERVE_LOGIC, network);
      StepGrows(env, st, network, ReserveLogicLibrary);
      StepGrows(env, st1, network, GenericLogic(rl));
      var st2 := Step(env, st1, network, GenericLogic(rl));
      StepGrows(env, st2, network, ValidationLogic(rl, Recorded(st2, GENERIC_LOGIC, network)));
      GrowsTwice(st, st1, st2);
      GrowsTwice(st, st2, Step(env, st, network, call));
    case SwapAdapter(id) =>
      EnsuredGrows(env, st, id, network, Link(env.artifactOf(id), map[]));
    case InsertInDb(_, _) =>
  }

  lemma GrowsTwice(st: State, st1: State, st2: State)
    requires Grows(st, st1) && Grows(st1, st2)
    ensures Grows(st, st2)
  {
  }

  /** Once recorded, an address is what every later call on that network returns. */
  lemma {:induction false} RunGrows(env: Environment, st: State, run: Run)
    requires AllLegal(run)
    ensures Grows(st, After(env, st, run))
    decreases |run|
  {
    if run == [] {
    } else {
      StepGrows(env, st, run[0].0, run[0].1);
      RunGrows(env, Step(env, st, run[0].0, run[0].1), run[1..]);
    }
  }

  // ---------- recorded libraries are linked to each other ----------

  /** The contracts handed to the linking deployers are the ones recorded on that network. */
  predicate HandsOverRecorded(st: State, network: string, call: Call) {
    match call
    case GenericLogic(rl) => rl == Recorded(st, RESERVE_LOGIC, network) != ""
    case ValidationLogic(rl, gl) =>
      rl == Recorded(st, RESERVE_LOGIC, network) != "" && gl == Recorded(st, GENERIC_LOGIC, network) != ""
    case _ => true
  }

  predicate RunHandsOverRecorded(env: Environment, st: State, run: Run)
    decreases |run|
  {
    run != [] ==>
      && HandsOverRecorded(st, run[0].0, run[0].1)
      && RunHandsOverRecorded(env, Step(env, st, run[0].0, run[0].1), run[1..])
  }

  /** The code of every created library is its artifact linked to the recorded addresses of the
      libraries it uses, on its own network. */
  ghost predicate Linked(env: Environment, st: State) {
    forall d <- st.chain :: LinkedDeployment(env, st, d)
  }

  ghost predicate LinkedDeployment(env: Environment, st: State, d: Deployment) {
    var rl, gl := Recorded(st, RESERVE_LOGIC, d.network), Recorded(st, GENERIC_LOGIC, d.network);
    && (d.id == RESERVE_LOGIC ==> d.code == env.artifactOf(RESERVE_LOGIC).bytecode)
    && (d.id == GENERIC_LOGIC ==> rl != "" && d.code == GenericLogicCode(env, rl))
    && (d.id == VALIDATION_LOGIC ==> rl != "" && gl != "" && d.code == ValidationLogicCode(env, rl, gl))
    && (d.id in SWAP_ADAPTERS ==> d.code == Link(env.artifactOf(d.id), map[]))
  }

  lemma StepIsLinked(env: Environment, st: State, network: string, call: Call)
    requires GivesAddresses(env) && Linked(env, st) && Legal(call) && HandsOverRecorded(st, network, call)
    ensures Linked(env, Step(env, st, network, call))
    decreases call.SturdyLibraries?
  {
    StepGrows(env, st, network, call);
    if call.SturdyLibraries? {
      var st1 := Step(env, st, network, ReserveLogicLibrary);
      StepIsLinked(env, st, network, ReserveLogicLibrary);
      var rl := Recorded(st1, RESERVE_LOGIC, network);
      StepIsLinked(env, st1, network, GenericLogic(rl));
      var st2 := Step(env, st1, network, GenericLogic(rl));
      StepGrows(env, st1, network, GenericLogic(rl));
      StepIsLinked(env, st2, network, ValidationLogic(rl, Recorded(st2, GENERIC_LOGIC, network)));
    } else {
      var st' := Step(env, st, network, call);
      forall d | d in st'.chain ensures LinkedDeployment(env, st', d) {
        if d in st.chain {
          assert LinkedDeployment(env, st, d);
        }
      }
    }
  }

  lemma {:induction false} RunsStayLinked(env: Environment, st: State, run: Run)
    requires GivesAddresses(env) && Linked(env, st) && AllLegal(run) && RunHandsOverRecorded(env, st, run)
    ensures Linked(env, After(env, st, run))
    decreases |run|
  {
    if run == [] {
    } else {
      StepIsLinked(env, st, run[0].0, run[0].1);
      RunsStayLinked(env, Step(env, st, run[0].0, run[0].1), run[1..]);
    }
  }

  /** In every hole of the library `name`, the code holds the digits of the address. */
  ghost predicate Embeds(artifact: Artifact, code: string, name: string, address: Address) {
    forall e <- FileEdits(artifact.linkReferences) | e.name == name ::
      HoleContents(code, e.fixup) == SubstrFrom(address, 2)
  }

  ghost predicate LinksCleanly(artifact: Artifact, libraries: Libraries) {
    WellFormed(|artifact.bytecode|, FileEdits(artifact.linkReferences), libraries)
  }

  /** After every run from an empty registry that hands over recorded contracts, a created
      GenericLogic embeds the recorded ReserveLogic, and a created ValidationLogic both. */
  lemma RecordedLibrariesEmbedEachOther(env: Environment, run: Run, d: Deployment)
    requires GivesAddresses(env) && AllLegal(run) && RunHandsOverRecorded(env, EMPTY, run)
    requires d in After(env, EMPTY, run).chain
    ensures var st := After(env, EMPTY, run);
      var rl, gl := Recorded(st, RESERVE_LOGIC, d.network), Recorded(st, GENERIC_LOGIC, d.network);
      && (d.id == GENERIC_LOGIC && LinksCleanly(env.artifactOf(d.id), map[RESERVE_LOGIC := rl])
          ==> Embeds(env.artifactOf(d.id), d.code, RESERVE_LOGIC, rl))
      && (d.id == VALIDATION_LOGIC
          && LinksCleanly(env.artifactOf(d.id), map[RESERVE_LOGIC := rl, GENERIC_LOGIC := gl])
          ==> Embeds(env.artifactOf(d.id), d.code, RESERVE_LOGIC, rl)
              && Embeds(env.artifactOf(d.id), d.code, GENERIC_LOGIC, gl))
  {
    RunsStayLinked(env, EMPTY, run);
    var st, artifact := After(env, EMPTY, run), env.artifactOf(d.id);
    assert LinkedDeployment(env, st, d);
    var rl, gl := Recorded(st, RESERVE_LOGIC, d.network), Recorded(st, GENERIC_LOGIC, d.network);
    if d.id == GENERIC_LOGIC && LinksCleanly(artifact, map[RESERVE_LOGIC := rl]) {
      LinkEmbeds(artifact, map[RESERVE_LOGIC := rl], RESERVE_LOGIC);
    }
    var both := map[RESERVE_LOGIC := rl, GENERIC_LOGIC := gl];
    if d.id == VALIDATION_LOGIC && LinksCleanly(artifact, both) {
      LinkEmbeds(artifact, both, RESERVE_LOGIC);
      LinkEmbeds(artifact, both, GENERIC_LOGIC);
    }
  }

  lemma LinkEmbeds(artifact: Artifact, libraries: Libraries, name: string)
    requires LinksCleanly(artifact, libraries) && name in libraries
    ensures Embeds(artifact, Link(artifact, libraries), name, libraries[name])
  {
    forall e | e in FileEdits(artifact.linkReferences) && e.name == name
      ensures HoleContents(Link(artifact, libraries), e.fixup) == SubstrFrom(libraries[name], 2)
    {
      LinkedHoleHoldsAddress(artifact, libraries, e);
    }
  }

  /** Without that discipline the first deployment on a network decides for good: whatever follows,
      the network has one library of that id, with the code of the first call. */
  lemma FirstCallDecides(env: Environment, st: State, id: string, network: string, code: string, run: Run)
    returns (d: Deployment)
    requires GivesAddresses(env) && Consistent(st) && AllLegal(run) && id in LIBRARIES
    requires Recorded(st, id, network) == ""
    ensures IsTheOnly(After(env, Ensured(env, st, id, network, code), run), id, network, d) && d.code == code
  {
    var st1 := Ensured(env, st, id, network, code);
    EnsuredIsConsistent(env, st, id, network, code);
    RunsAreConsistent(env, st1, run);
    RunGrows(env, st1, run);
    d := st1.chain[|st.chain|];
    assert d in st1.chain;
    OnlyCreation(After(env, st1, run), d);
  }

  lemma FirstGenericLogicCallDecides(env: Environment, st: State, network: string, rl: Address, run: Run)
    returns (d: Deployment)
    requires GivesAddresses(env) && Consistent(st) && AllLegal(run)
    requires Recorded(st, GENERIC_LOGIC, network) == ""
    ensures IsTheOnly(After(env, Step(env, st, network, GenericLogic(rl)), run), GENERIC_LOGIC, network, d)
    ensures d.code == GenericLogicCode(env, rl)
  {
    d := FirstCallDecides(env, st, GENERIC_LOGIC, network, GenericLogicCode(env, rl), run);
  }

  lemma FirstValidationLogicCallDecides(env: Environment, st: State, network: string, rl: Address, gl: Address, run: Run)
    returns (d: Deployment)
    requires GivesAddresses(env) && Consistent(st) && AllLegal(run)
    requires Recorded(st, VALIDATION_LOGIC, network) == ""
    ensures IsTheOnly(After(env, Step(env, st, network, ValidationLogic(rl, gl)), run), VALIDATION_LOGIC, network, d)
    ensures d.code == ValidationLogicCode(env, rl, gl)
  {
    d := FirstCallDecides(env, st, VALIDATION_LOGIC, network, ValidationLogicCode(env, rl, gl), run);
  }

  /** Linked code embeds some address exactly when the digits are those handed over. */
  lemma EmbedsOnlyTheFirst(artifact: Artifact, libraries: Libraries, name: string, address: Address)
    requires LinksCleanly(artifact, libraries) && name in libraries
    requires exists e <- FileEdits(artifact.linkReferences) :: e.name == name
    ensures Embeds(artifact, Link(artifact, libraries), name, address)
            <==> SubstrFrom(libraries[name], 2) == SubstrFrom(address, 2)
  {
    LinkEmbeds(artifact, libraries, name);
    var e :| e in FileEdits(artifact.linkReferences) && e.name == name;
    assert HoleContents(Link(artifact, libraries), e.fixup) == SubstrFrom(libraries[name], 2);
  }

  /** For instance, GenericLogic handed another address than that of the ReserveLogic just created
      never embeds the recorded one, whatever is called later. */
  lemma MismatchIsPermanent(env: Environment, network: string, other: Address, run: Run) returns (d: Deployment)
    requires GivesAddresses(env) && AllLegal(run)
    requires LinksCleanly(env.artifactOf(GENERIC_LOGIC), map[RESERVE_LOGIC := other])
    requires exists e <- FileEdits(env.artifactOf(GENERIC_LOGIC).linkReferences) :: e.name == RESERVE_LOGIC
    requires SubstrFrom(other, 2) != SubstrFrom(env.addressOf(0), 2)
    ensures var st1 := Step(env, EMPTY, network, ReserveLogicLibrary);
      var end := After(env, Step(env, st1, network, GenericLogic(other)), run);
      && Recorded(end, RESERVE_LOGIC, network) == env.addressOf(0)
      && IsTheOnly(end, GENERIC_LOGIC, network, d)
      && !Embeds(env.artifactOf(GENERIC_LOGIC), d.code, RESERVE_LOGIC, Recorded(end, RESERVE_LOGIC, network))
  {
    var st1 := Step(env, EMPTY, network, ReserveLogicLibrary);
    var st2 := Step(env, st1, network, GenericLogic(other));
    StepIsConsistent(env, EMPTY, network, ReserveLogicLibrary);
    assert Recorded(st2, RESERVE_LOGIC, network) == env.addressOf(0);
    RunGrows(env, st2, run);
    d := FirstGenericLogicCallDecides(env, st1, network, other, run);
    EmbedsOnlyTheFirst(env.artifactOf(GENERIC_LOGIC), map[RESERVE_LOGIC := other], RESERVE_LOGIC, env.addressOf(0));
  }

  /** Deploying the libraries again changes nothing. */
  lemma SturdyLibrariesIsIdempotent(env: Environment, st: State, network: string)
    requires GivesAddresses(env)
    ensures var once := Step(env, st, network, SturdyLibraries);
      Step(env, once, network, SturdyLibraries) == once
  {
  }
}
