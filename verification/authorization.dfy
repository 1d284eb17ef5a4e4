/** The entry point of the procedure controller: registering extensions and their bootstrap
    checks, deciding whether a call may proceed and by which route, and then running either the
    extension or the stored procedure. Whether the privilege store exists, the privilege rows found
    for the procedure, the token list extracted from them and the database's answers are
    parameters. */
module Authorization {
  import opened Domain
  import opened ProcedureExecution

  /** `registerExtension` and `registerExtensionBootstrapCheck`: a name can be registered once;
      registering it again fails and leaves the registry as it was. */
  function Register<T>(registry: map<string, T>, name: string, entry: T): (r: Result<map<string, T>>)
    ensures r.Err? <==> name in registry
    ensures r.Err? ==> r.error == IllegalArgument(name)
    ensures r.Ok? ==> r.value.Keys == registry.Keys + {name} && r.value[name] == entry
    ensures r.Ok? ==> forall n :: n in registry ==> r.value[n] == registry[n]
  {
    if name in registry then Err(IllegalArgument(name)) else Ok(registry[name := entry])
  }

  /** Registrations of different names do not interfere: either order gives the same registry. */
  lemma RegisterCommutes<T>(registry: map<string, T>, a: string, x: T, b: string, y: T)
    requires a != b && a !in registry && b !in registry
    ensures Register(Register(registry, a, x).value, b, y) == Register(Register(registry, b, y).value, a, x)
  {
    assert registry[a := x][b := y] == registry[b := y][a := x];
  }

  /** The second registration of a name fails, whatever is registered. */
  lemma RegisterOnce<T>(registry: map<string, T>, name: string, x: T, y: T)
    requires name !in registry
    ensures Register(registry, name, x).Ok?
    ensures Register(Register(registry, name, x).value, name, y) == Err(IllegalArgument(name))
  {
  }

  /** How an authorised call proceeds: through a registered extension, or as a stored procedure
      under the privilege rows found for it. */
  datatype Route = ViaExtension | ViaProcedure(privileges: seq<Grant>)

  /** The authorisation decision of `executeProcedure`. With the privilege store set up, the
      privilege rows found for the name must not be empty. Without it, only a name with a
      registered bootstrap check that accepts the input gets through. A registered extension then
      takes the call; otherwise the stored procedure needs privilege rows, which a call without the
      store never has. */
  function Authorize(input: Table, storesSetup: bool, privileges: seq<Grant>,
                     bootstrapChecks: map<string, Table -> bool>, extensions: set<string>): (r: Result<Route>)
    ensures r.Err? ==> r.error == PrivilegeError(input.name)
  {
    var granted := if storesSetup then privileges else [];
    if storesSetup && |privileges| == 0 then Err(PrivilegeError(input.name))
    else if !storesSetup && (input.name !in bootstrapChecks || !bootstrapChecks[input.name](input)) then
      Err(PrivilegeError(input.name))
    else if input.name in extensions then Ok(ViaExtension)
    else if |granted| == 0 then Err(PrivilegeError(input.name))
    else Ok(ViaProcedure(granted))
  }

  /** A stored procedure runs exactly when the privilege store is set up, privilege rows were
      found, and no extension claims the name; it runs under exactly those rows. */
  lemma ProcedureRoute(input: Table, storesSetup: bool, privileges: seq<Grant>,
                       bootstrapChecks: map<string, Table -> bool>, extensions: set<string>)
    ensures var r := Authorize(input, storesSetup, privileges, bootstrapChecks, extensions);
      (r.Ok? && r.value.ViaProcedure?) <==> storesSetup && |privileges| > 0 && input.name !in extensions
    ensures var r := Authorize(input, storesSetup, privileges, bootstrapChecks, extensions);
      r.Ok? && r.value.ViaProcedure? ==> r.value.privileges == privileges
  {
  }

  /** An extension runs exactly when it is registered and the caller passes the gate that applies:
      privilege rows with the store, the extension's bootstrap check without it. */
  lemma ExtensionRoute(input: Table, storesSetup: bool, privileges: seq<Grant>,
                       bootstrapChecks: map<string, Table -> bool>, extensions: set<string>)
    ensures var r := Authorize(input, storesSetup, privileges, bootstrapChecks, extensions);
      r == Ok(ViaExtension) <==>
        input.name in extensions &&
        (if storesSetup then |privileges| > 0
         else input.name in bootstrapChecks && bootstrapChecks[input.name](input))
  {
  }

  /** Without the privilege store the privilege rows are never consulted, and nothing but an
      extension accepted by its bootstrap check gets through. */
  lemma BootstrapOnlyForExtensions(input: Table, privileges: seq<Grant>, other: seq<Grant>,
                                   bootstrapChecks: map<string, Table -> bool>, extensions: set<string>)
    ensures Authorize(input, false, privileges, bootstrapChecks, extensions) ==
            Authorize(input, false, other, bootstrapChecks, extensions)
    ensures Authorize(input, false, privileges, bootstrapChecks, extensions).Ok? ==>
      Authorize(input, false, privileges, bootstrapChecks, extensions) == Ok(ViaExtension)
  {
  }

  /** What `executeProcedure` answers: the extension's answer, or the procedure's result. */
  datatype Response<R> = ExtensionResponse(answer: R) | ProcedureResponse(result: ProcedureResult)

  /** `executeProcedure`: authorise, then run the extension registered under the name or calculate
      the procedure's result with the tokens extracted from the privilege rows. */
  function ExecuteProcedure<R>(input: Table, storesSetup: bool, privileges: seq<Grant>,
                               bootstrapChecks: map<string, Table -> bool>, extensions: map<string, Table -> Result<R>>,
                               tokensOf: seq<Grant> -> seq<string>, execute: nat -> Execution): (r: Result<Response<R>>)
    ensures var route := Authorize(input, storesSetup, privileges, bootstrapChecks, extensions.Keys);
      route.Err? ==> r == Err(route.error)
  {
    var route :- Authorize(input, storesSetup, privileges, bootstrapChecks, extensions.Keys);
    match route
    case ViaExtension =>
      var answer :- extensions[input.name](input);
      Ok(ExtensionResponse(answer))
    case ViaProcedure(granted) =>
      var result :- CalculateProcedureResult(input, tokensOf(granted), execute);
      Ok(ProcedureResponse(result))
  }

  /** A call that reaches the database is one whose name has privilege rows and no extension;
      its result is the procedure's, computed under the tokens of those rows. */
  lemma ExecuteProcedureResult<R>(input: Table, storesSetup: bool, privileges: seq<Grant>,
                                  bootstrapChecks: map<string, Table -> bool>, extensions: map<string, Table -> Result<R>>,
                                  tokensOf: seq<Grant> -> seq<string>, execute: nat -> Execution)
    requires var r := ExecuteProcedure(input, storesSetup, privileges, bootstrapChecks, extensions, tokensOf, execute);
      r.Ok? && r.value.ProcedureResponse?
    ensures storesSetup && |privileges| > 0 && input.name !in extensions
    ensures CalculateProcedureResult(input, tokensOf(privileges), execute) ==
      Ok(ExecuteProcedure(input, storesSetup, privileges, bootstrapChecks, extensions, tokensOf, execute).value.result)
  {
    ProcedureRoute(input, storesSetup, privileges, bootstrapChecks, extensions.Keys);
  }
}
