/**
  The descriptors that connectrpc-codegen/src/codegen.rs walks, the identifiers it derives from
  them, and what a whole generation batch demands. Case conversion and type resolution belong to
  other crates and are arbitrary functions here.
 */
module CodegenModel {
  import opened Options
  import opened Sequences

  // ----- Descriptors -------------------------------------------------------------------------

  datatype RpcMethod = RpcMethod(name: string, input: Option<string>, output: Option<string>)

  datatype Service = Service(name: string, methods: seq<RpcMethod>)

  datatype Message = Message(name: string, mapEntry: bool, nested: seq<Message>)

  datatype ProtoFile = ProtoFile(
    name: Option<string>, package: string,
    services: seq<Service>, messages: seq<Message>, enums: seq<string>)

  /** Everything the generator takes from outside: options, case conversion and type resolution. */
  datatype Config = Config(
    upperCamel: string -> string,
    snake: string -> string,
    upper: string -> string,
    resolves: string -> bool,
    foreign: string -> bool,
    requireExtern: bool,
    lazyViews: bool,
    typeNamePrefix: string,
    allMessages: bool)

  // ----- Identifiers -------------------------------------------------------------------------

  function AfterLastDot(s: string): (r: string)
    ensures '.' !in r && |r| <= |s| && r == s[|s| - |r|..]
    ensures |r| < |s| ==> s[|s| - |r| - 1] == '.'
  {
    if s == [] then []
    else if '.' in s[1..] then AfterLastDot(s[1..])
    else if s[0] == '.' then s[1..]
    else s
  }

  /** `Owned<Msg>View` for a proto name. */
  function Alias(cfg: Config, fqn: string): string {
    "Owned" + cfg.upperCamel(AfterLastDot(fqn)) + "View"
  }

  /** The types and traits one service puts at module scope. */
  function TypeIdents(cfg: Config, s: Service): seq<string> {
    var u := cfg.upperCamel(s.name);
    [if u == "Self" then "Self_" else u, u + "Ext", u + "RegisterMarker", u + "Client", u + "Server"]
  }

  function SpecConst(cfg: Config, s: Service, m: RpcMethod): string {
    cfg.upper(cfg.snake(s.name)) + "_" + cfg.upper(cfg.snake(m.name)) + "_SPEC"
  }

  /** The constants one service puts at module scope. */
  function ConstIdents(cfg: Config, s: Service): seq<string> {
    [cfg.upper(cfg.snake(s.name)) + "_SERVICE_NAME"] +
    seq(|s.methods|, i requires 0 <= i < |s.methods| => SpecConst(cfg, s, s.methods[i]))
  }

  /** The methods one RPC puts on the generated client. */
  function ClientIdents(cfg: Config, m: RpcMethod): seq<string> {
    [cfg.snake(m.name), cfg.snake(m.name) + "_with_options"]
  }

  function ServiceClientIdents(cfg: Config, ms: seq<RpcMethod>): seq<string> {
    if ms == [] then [] else ServiceClientIdents(cfg, ms[..|ms| - 1]) + ClientIdents(cfg, ms[|ms| - 1])
  }

  // ----- Module-scope items ------------------------------------------------------------------

  datatype Kind = Type | Const

  datatype Item = Item(package: string, ident: string, kind: Kind) {
    function Key(): (string, string) {
      (package, ident)
    }
  }

  function Keys(items: seq<Item>): (ks: seq<(string, string)>)
    ensures |ks| == |items| && forall i :: 0 <= i < |items| ==> ks[i] == items[i].Key()
  {
    seq(|items|, i requires 0 <= i < |items| => items[i].Key())
  }

  function ItemsOf(package: string, idents: seq<string>, kind: Kind): (items: seq<Item>)
    ensures |items| == |idents| && forall i :: 0 <= i < |items| ==> items[i] == Item(package, idents[i], kind)
  {
    seq(|idents|, i requires 0 <= i < |idents| => Item(package, idents[i], kind))
  }

  function ServiceItems(cfg: Config, package: string, s: Service): seq<Item> {
    ItemsOf(package, TypeIdents(cfg, s), Type) + ItemsOf(package, ConstIdents(cfg, s), Const)
  }

  function FileItems(cfg: Config, package: string, ss: seq<Service>): seq<Item> {
    if ss == [] then []
    else FileItems(cfg, package, ss[..|ss| - 1]) + ServiceItems(cfg, package, ss[|ss| - 1])
  }

  /** Every module-scope item of the services of a batch, in emission order. */
  function BatchItems(cfg: Config, fs: seq<ProtoFile>): seq<Item> {
    if fs == [] then []
    else BatchItems(cfg, fs[..|fs| - 1]) + FileItems(cfg, fs[|fs| - 1].package, fs[|fs| - 1].services)
  }

  // ----- Referenced messages -----------------------------------------------------------------

  function Given(fqn: Option<string>): seq<string> {
    if fqn.Some? then [fqn.value] else []
  }

  function OrEmpty(fqn: Option<string>): string {
    if fqn.Some? then fqn.value else ""
  }

  function MethodRefs(ms: seq<RpcMethod>): seq<string> {
    if ms == [] then []
    else MethodRefs(ms[..|ms| - 1]) + Given(ms[|ms| - 1].input) + Given(ms[|ms| - 1].output)
  }

  /** Input and output types named by the methods of a file's services, in source order. */
  function ServiceRefs(ss: seq<Service>): seq<string> {
    if ss == [] then [] else ServiceRefs(ss[..|ss| - 1]) + MethodRefs(ss[|ss| - 1].methods)
  }

  /** A method of the services names `fqn` as its input or output type. */
  ghost predicate NamedByMethod(ss: seq<Service>, fqn: string) {
    exists s, m :: s in ss && m in s.methods && (m.input == Some(fqn) || m.output == Some(fqn))
  }

  /** Some selected file of the package names `fqn` as an input or output type. */
  ghost predicate Referenced(fs: seq<ProtoFile>, package: string, fqn: string) {
    exists f :: f in fs && f.package == package && NamedByMethod(f.services, fqn)
  }

  /** Some service of the package generates a type or trait called `ident`. */
  ghost predicate IsServiceType(cfg: Config, fs: seq<ProtoFile>, package: string, ident: string) {
    exists f, s :: f in fs && f.package == package && s in f.services && ident in TypeIdents(cfg, s)
  }

  /** Two different messages of the package would get this alias, or a service type has its name. */
  ghost predicate Contested(cfg: Config, fs: seq<ProtoFile>, package: string, alias: string) {
    || IsServiceType(cfg, fs, package, alias)
    || exists a, b :: a != b && Alias(cfg, a) == alias && Alias(cfg, b) == alias
                      && Referenced(fs, package, a) && Referenced(fs, package, b)
  }

  // ----- Encodable demand --------------------------------------------------------------------

  function OutputRefs(ms: seq<RpcMethod>): seq<string> {
    if ms == [] then [] else OutputRefs(ms[..|ms| - 1]) + [OrEmpty(ms[|ms| - 1].output)]
  }

  function ServiceOutputs(ss: seq<Service>): seq<string> {
    if ss == [] then [] else ServiceOutputs(ss[..|ss| - 1]) + OutputRefs(ss[|ss| - 1].methods)
  }

  /** A message and its descendants, cut off at map entries. */
  function MessageNames(m: Message, prefix: string): seq<string>
    decreases m, 1
  {
    if m.mapEntry then [] else [prefix + "." + m.name] + NestedNames(m.nested, prefix + "." + m.name)
  }

  function NestedNames(ms: seq<Message>, prefix: string): seq<string>
    decreases ms, 0
  {
    if ms == [] then [] else MessageNames(ms[0], prefix) + NestedNames(ms[1..], prefix)
  }

  function Prefix(package: string): string {
    if package == "" then "" else "." + package
  }

  /** The names one file asks an `Encodable` pair for, in source order. */
  function FileDemand(cfg: Config, f: ProtoFile): seq<string> {
    ServiceOutputs(f.services) + (if cfg.allMessages then NestedNames(f.messages, Prefix(f.package)) else [])
  }

  /** A method of the services returns `fqn`; one without an output type returns the empty name. */
  ghost predicate ReturnedByMethod(ss: seq<Service>, fqn: string) {
    exists s, m :: s in ss && m in s.methods && (m.output == Some(fqn) || (m.output == None && fqn == ""))
  }

  /** The name that a chain of nested messages spells. */
  function Dotted(chain: seq<Message>): string {
    if chain == [] then "" else "." + chain[0].name + Dotted(chain[1..])
  }

  /** Each message of the chain is nested in the one before it, and none is a map entry. */
  ghost predicate IsChain(ms: seq<Message>, chain: seq<Message>) {
    && chain != [] && chain[0] in ms
    && (forall i :: 0 < i < |chain| ==> chain[i] in chain[i - 1].nested)
    && forall i :: 0 <= i < |chain| ==> !chain[i].mapEntry
  }

  /** `fqn` is the full name of a message of the file, at any depth, outside map entries. */
  ghost predicate DefinedIn(f: ProtoFile, fqn: string) {
    exists chain :: IsChain(f.messages, chain)
                    && fqn == (if f.package == "" then "" else "." + f.package) + Dotted(chain)
  }

  /** Some selected file returns the message, or defines it when all messages are asked for. */
  ghost predicate Demanded(cfg: Config, fs: seq<ProtoFile>, fqn: string) {
    exists f :: f in fs && (ReturnedByMethod(f.services, fqn) || (cfg.allMessages && DefinedIn(f, fqn)))
  }

  // ----- Selected files ----------------------------------------------------------------------

  function Find(files: seq<ProtoFile>, name: string): Option<ProtoFile> {
    if files == [] then None
    else if files[0].name == Some(name) then Some(files[0])
    else Find(files[1..], name)
  }

  /** The descriptors of the files to generate, in the order they are listed. */
  function Selected(files: seq<ProtoFile>, names: seq<string>): seq<ProtoFile> {
    if names == [] then []
    else
      var found := Find(files, names[0]);
      (if found.Some? then [found.value] else []) + Selected(files, names[1..])
  }

  // ----- Root types --------------------------------------------------------------------------

  /** A top-level message or enum. */
  datatype Decl = Decl(package: string, name: string, isMessage: bool)

  function FileDecls(f: ProtoFile): seq<Decl> {
    seq(|f.messages|, i requires 0 <= i < |f.messages| => Decl(f.package, f.messages[i].name, true)) +
    seq(|f.enums|, i requires 0 <= i < |f.enums| => Decl(f.package, f.enums[i], false))
  }

  /** Top-level declarations of the generated files, in descriptor order. */
  function Decls(files: seq<ProtoFile>, names: seq<string>): seq<Decl> {
    if files == [] then []
    else
      var f := files[|files| - 1];
      Decls(files[..|files| - 1], names) +
      (if f.name.Some? && f.name.value in names then FileDecls(f) else [])
  }

  function Suffixes(cfg: Config): seq<string> {
    if cfg.lazyViews then ["View", "OwnedView", "LazyView"] else ["View", "OwnedView"]
  }

  function RustName(cfg: Config, d: Decl): (string, string) {
    (d.package, cfg.typeNamePrefix + d.name)
  }

  /** The view names one declaration claims. */
  function ViewNames(cfg: Config, d: Decl): seq<(string, string)> {
    var suffixes := if d.isMessage then Suffixes(cfg) else [];
    seq(|suffixes|, i requires 0 <= i < |suffixes| => (d.package, cfg.typeNamePrefix + d.name + suffixes[i]))
  }

  function Claims(cfg: Config, ds: seq<Decl>): seq<(string, string)> {
    if ds == [] then [] else Claims(cfg, ds[..|ds| - 1]) + ViewNames(cfg, ds[|ds| - 1])
  }

  function Declared(cfg: Config, ds: seq<Decl>): set<(string, string)> {
    set d | d in ds :: RustName(cfg, d)
  }

  /** The names buffa puts at the module root: declared ones, and views claimed exactly once. */
  function RootTypes(cfg: Config, ds: seq<Decl>): set<(string, string)> {
    if cfg.requireExtern then {}
    else Declared(cfg, ds) + set v | v in Claims(cfg, ds) && multiset(Claims(cfg, ds))[v] == 1
  }

  // ----- What a batch may and may not do -----------------------------------------------------

  /** The name of a module-scope type or constant of one service. */
  ghost predicate NamesService(cfg: Config, s: Service, ident: string, kind: Kind) {
    var u := cfg.upperCamel(s.name);
    match kind
    case Type =>
      || ident == (if u == "Self" then "Self_" else u)
      || ident == u + "Ext" || ident == u + "RegisterMarker" || ident == u + "Client" || ident == u + "Server"
    case Const =>
      || ident == cfg.upper(cfg.snake(s.name)) + "_SERVICE_NAME"
      || exists m :: m in s.methods
                     && ident == cfg.upper(cfg.snake(s.name)) + "_" + cfg.upper(cfg.snake(m.name)) + "_SPEC"
  }

  /** Exactly the items of the services of the selected files. */
  ghost predicate ItemsExact(cfg: Config, fs: seq<ProtoFile>, items: seq<Item>) {
    forall it :: it in items <==>
      exists f, s :: f in fs && s in f.services && it.package == f.package && NamesService(cfg, s, it.ident, it.kind)
  }

  /** Everything emitted for a batch: module items, `(package, fqn)` aliases, `Encodable` pairs. */
  datatype Emitted = Emitted(items: seq<Item>, aliases: seq<(string, string)>, impls: seq<string>)

  function AliasKeys(cfg: Config, aliases: seq<(string, string)>): (ks: seq<(string, string)>)
    ensures |ks| == |aliases|
    ensures forall i :: 0 <= i < |ks| ==> ks[i] == (aliases[i].0, Alias(cfg, aliases[i].1))
  {
    seq(|aliases|, i requires 0 <= i < |aliases| => (aliases[i].0, Alias(cfg, aliases[i].1)))
  }

  ghost predicate ServiceAcceptable(cfg: Config, package: string, s: Service, root: set<(string, string)>) {
    && NoDuplicates(ServiceClientIdents(cfg, s.methods))
    && (forall t :: t in TypeIdents(cfg, s) ==> (package, t) !in root)
    && (forall m :: m in s.methods ==> cfg.resolves(OrEmpty(m.input)) && cfg.resolves(OrEmpty(m.output)))
  }

  ghost predicate FileAcceptable(cfg: Config, f: ProtoFile, root: set<(string, string)>) {
    && (forall s :: s in f.services ==> ServiceAcceptable(cfg, f.package, s, root))
    && (forall fqn :: fqn in FileDemand(cfg, f) ==> cfg.resolves(fqn))
  }

  /** Nothing collides and every type resolves, in a batch of selected files. */
  ghost predicate Acceptable(cfg: Config, fs: seq<ProtoFile>, root: set<(string, string)>) {
    && (forall f :: f in fs ==> FileAcceptable(cfg, f, root))
    && NoDuplicates(Keys(BatchItems(cfg, fs)))
  }

  /** No two items of one module share a name, and none has the name of a buffa root type. */
  ghost predicate CollisionFree(cfg: Config, e: Emitted, root: set<(string, string)>) {
    && NoDuplicates(Keys(e.items))
    && NoDuplicates(AliasKeys(cfg, e.aliases))
    && (forall it, k :: it in e.items && it.kind == Type && k in AliasKeys(cfg, e.aliases) ==> it.Key() != k)
    && (forall it :: it in e.items && it.kind == Type ==> it.Key() !in root)
    && (forall k :: k in AliasKeys(cfg, e.aliases) ==> k !in root)
  }
}
