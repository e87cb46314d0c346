/** The dependency injection container: recursive resolution with singleton and scoped
    caches, and cycle detection through the set of types being resolved. */
module DependencyInjection {
  import opened Wrappers
  import opened Graphs

  datatype Scope = Singleton | Transient | Scoped

  /** A constructor parameter whose annotation is a class. */
  datatype Param = Param(name: string, typ: string)

  datatype Descriptor = Descriptor(implementation: string, scope: Scope, factory: Option<nat>, dependencies: seq<Param>)

  /** An object the container hands out. The serial number is its identity: it counts the calls
      of constructors and factories. */
  datatype Instance =
    | Given(tag: nat)
    | Made(serial: nat, implementation: string, args: map<string, Instance>)
    | Produced(serial: nat, factory: nat)

  datatype Outcome =
    | Resolved(instance: Instance)
    | NotRegistered(typ: string)
    | Circular(typ: string)
    | Raised(serial: nat)

  /** `raises` says which constructor and factory calls raise; `built` counts, for each type,
      the singletons constructed since the last ClearAll. */
  datatype State = State(
    registrations: map<string, Descriptor>,
    singletons: map<string, Instance>,
    scoped: map<string, Instance>,
    resolving: set<string>,
    calls: nat,
    raises: nat -> bool,
    built: map<string, nat>)
  {
    predicate InCache(t: string) {
      t in registrations && match registrations[t].scope
        case Singleton => t in singletons
        case Scoped => t in scoped
        case Transient => false
    }

    ghost predicate Valid() {
      && (forall t :: t in resolving ==> !InCache(t))
      && (forall t :: t in registrations ==> DistinctNames(registrations[t].dependencies))
      && (forall t :: t in built ==> built[t] == 1 && t in singletons)
    }
  }

  /** Parameter names of one signature are distinct. */
  ghost predicate DistinctNames(params: seq<Param>) {
    forall i, j :: 0 <= i < j < |params| ==> params[i].name != params[j].name
  }

  // ----- what a registration finds out about a constructor

  /** A type hint is a class, or something else such as a union. */
  datatype Hint = Class(typ: string) | NotClass

  /** The parameters to inject: those hinted with a class. None stands for hints that cannot be had. */
  function Injectable(hints: Option<seq<(string, Hint)>>): seq<Param> {
    if hints.None? then [] else Classes(hints.value)
  }

  function Classes(hints: seq<(string, Hint)>): seq<Param> {
    if hints == [] then []
    else
      var (name, hint) := hints[|hints| - 1];
      Classes(hints[..|hints| - 1]) + if name != "return" && hint.Class? then [Param(name, hint.typ)] else []
  }

  ghost predicate DistinctHints(hints: seq<(string, Hint)>) {
    forall i, j :: 0 <= i < j < |hints| ==> hints[i].0 != hints[j].0
  }

  /** Exactly the class hints of parameters become dependencies, each name once. */
  lemma {:induction false} ClassesMeans(hints: seq<(string, Hint)>)
    requires DistinctHints(hints)
    ensures DistinctNames(Classes(hints))
    ensures forall p :: p in Classes(hints) <==> p.name != "return" && (p.name, Class(p.typ)) in hints
  {
    if hints != [] {
      var fewer := hints[..|hints| - 1];
      var last := hints[|hints| - 1];
      ClassesMeans(fewer);
      assert hints == fewer + [last];
      forall p ensures p in Classes(hints) <==> p.name != "return" && (p.name, Class(p.typ)) in hints {
        assert (p.name, Class(p.typ)) in hints <==> (p.name, Class(p.typ)) in fewer || (p.name, Class(p.typ)) == last;
      }
      forall i, j | 0 <= i < j < |Classes(hints)| ensures Classes(hints)[i].name != Classes(hints)[j].name {
        if j == |Classes(fewer)| { assert Classes(hints)[i] in Classes(fewer); }
      }
    }
  }

  /** They stand in the order of the hints. */
  lemma {:induction false} ClassesInOrder(hints: seq<(string, Hint)>) returns (at: seq<nat>)
    ensures |at| == |Classes(hints)| && forall x, y :: 0 <= x < y < |at| ==> at[x] < at[y]
    ensures forall x :: 0 <= x < |at| ==>
      at[x] < |hints| && hints[at[x]] == (Classes(hints)[x].name, Class(Classes(hints)[x].typ))
  {
    at := [];
    if hints != [] {
      var last := |hints| - 1;
      at := ClassesInOrder(hints[..last]);
      if hints[last].0 != "return" && hints[last].1.Class? { at := at + [last]; }
    }
  }

  // ----- what `resolve` and `_create_instance` compute

  function Lookup(s: State, t: string): Instance
    requires s.InCache(t)
  {
    if s.registrations[t].scope.Singleton? then s.singletons[t] else s.scoped[t]
  }

  function Keep(s: State, t: string, x: Instance): State
    requires t in s.registrations
  {
    match s.registrations[t].scope
    case Singleton =>
      s.(singletons := s.singletons[t := x], built := s.built[t := 1 + if t in s.built then s.built[t] else 0])
    case Scoped => s.(scoped := s.scoped[t := x])
    case Transient => s
  }

  function Resolution(s: State, t: string): (r: (State, Outcome))
    ensures r.0.registrations == s.registrations && r.0.resolving == s.resolving && r.0.raises == s.raises
    decreases s.registrations.Keys - s.resolving, 0
  {
    if t !in s.registrations then (s, NotRegistered(t))
    else if s.InCache(t) then (s, Resolved(Lookup(s, t)))
    else if t in s.resolving then (s, Circular(t))
    else
      var (s1, r) := Create(s.(resolving := s.resolving + {t}), s.registrations[t]);
      var s2 := if r.Resolved? then Keep(s1, t, r.instance) else s1;
      (s2.(resolving := s.resolving), r)
  }

  function Create(s: State, d: Descriptor): (r: (State, Outcome))
    ensures r.0.registrations == s.registrations && r.0.resolving == s.resolving && r.0.raises == s.raises
    decreases s.registrations.Keys - s.resolving, |d.dependencies| + 3
  {
    match d.factory
    case Some(f) => Call(s, Produced(s.calls, f))
    case None =>
      var (s1, r, args) := Supply(s, d.dependencies, map[]);
      if r.Some? then (s1, r.value) else Call(s1, Made(s1.calls, d.implementation, args))
  }

  function Call(s: State, x: Instance): (State, Outcome) {
    (s.(calls := s.calls + 1), if s.raises(s.calls) then Raised(s.calls) else Resolved(x))
  }

  type Args = map<string, Instance>

  /** Resolves one parameter, unless its type is not registered. */
  function SupplyOne(s: State, p: Param, args: Args): (r: (State, Option<Outcome>, Args))
    ensures r.0.registrations == s.registrations && r.0.resolving == s.resolving && r.0.raises == s.raises
    decreases s.registrations.Keys - s.resolving, 1
  {
    if p.typ !in s.registrations then (s, None, args)
    else
      var (s1, r) := Resolution(s, p.typ);
      if r.Resolved? then (s1, None, args[p.name := r.instance]) else (s1, Some(r), args)
  }

  /** Resolves the parameters in order; stops at the first failure. */
  function Supply(s: State, params: seq<Param>, args: Args): (r: (State, Option<Outcome>, Args))
    ensures r.0.registrations == s.registrations && r.0.resolving == s.resolving && r.0.raises == s.raises
    decreases s.registrations.Keys - s.resolving, |params| + 2
  {
    if params == [] then (s, None, args)
    else
      var (s1, r, args1) := SupplyOne(s, params[0], args);
      if r.None? then Supply(s1, params[1..], args1) else (s1, r, args1)
  }

  // ----- caches, identity and wiring

  ghost predicate Extends(s: State, s': State) {
    && (forall t :: t in s.singletons ==> t in s'.singletons && s'.singletons[t] == s.singletons[t])
    && (forall t :: t in s.scoped ==> t in s'.scoped && s'.scoped[t] == s.scoped[t])
    && s.calls <= s'.calls
    && s.built.Keys <= s'.built.Keys
  }

  lemma {:induction false} ResolveKeeps(s: State, t: string)
    requires s.Valid()
    ensures var (s', r) := Resolution(s, t);
      && s'.Valid() && Extends(s, s')
      && (r.NotRegistered? <==> t !in s.registrations)
      && (s.InCache(t) ==> s' == s && r == Resolved(Lookup(s, t)))
      && (r.Resolved? && !s.registrations[t].scope.Transient? ==> s'.InCache(t) && Lookup(s', t) == r.instance)
      && (r.Raised? ==> s.calls <= r.serial < s'.calls && s.raises(r.serial))
    decreases s.registrations.Keys - s.resolving, 0
  {
    if t in s.registrations && !s.InCache(t) && t !in s.resolving {
      var s0 := s.(resolving := s.resolving + {t});
      var (s1, r) := Create(s0, s.registrations[t]);
      CreateKeeps(s0, s.registrations[t]);
      if r.Resolved? {
        KeepKeeps(s1, s.resolving, t, r.instance);
      }
    }
  }

  lemma KeepKeeps(s: State, outer: set<string>, t: string, x: Instance)
    requires s.Valid() && t in s.registrations && t in s.resolving && outer <= s.resolving && t !in outer
    ensures var s' := Keep(s, t, x).(resolving := outer);
      && s'.Valid() && Extends(s, s')
      && (!s.registrations[t].scope.Transient? ==> s'.InCache(t) && Lookup(s', t) == x)
  {
    assert !s.InCache(t);
  }

  lemma {:induction false} CreateKeeps(s: State, d: Descriptor)
    requires s.Valid()
    ensures var (s', r) := Create(s, d);
      && s'.Valid() && Extends(s, s') && !r.NotRegistered?
      && (r.Raised? ==> s.calls <= r.serial < s'.calls && s.raises(r.serial))
    decreases s.registrations.Keys - s.resolving, |d.dependencies| + 3
  {
    if d.factory.None? {
      SupplyKeeps(s, d.dependencies, map[]);
    }
  }

  lemma {:induction false} SupplyKeeps(s: State, params: seq<Param>, args: Args)
    requires s.Valid()
    ensures var (s', r, _) := Supply(s, params, args); s'.Valid() && Extends(s, s') && Aborts(s, s', r)
    decreases s.registrations.Keys - s.resolving, |params| + 1
  {
    if params != [] {
      var (s1, r, args1) := SupplyOne(s, params[0], args);
      if params[0].typ in s.registrations {
        ResolveKeeps(s, params[0].typ);
      }
      if r.None? {
        SupplyKeeps(s1, params[1..], args1);
      }
    }
  }

  ghost predicate Aborts(s: State, s': State, r: Option<Outcome>) {
    r.Some? ==>
      && !r.value.Resolved? && !r.value.NotRegistered?
      && (r.value.Raised? ==> s.calls <= r.value.serial < s'.calls && s.raises(r.value.serial))
  }

  // ----- what gets built, and how it is wired

  function Names(regs: map<string, Descriptor>, params: seq<Param>): set<string> {
    set p | p in params && p.typ in regs :: p.name
  }

  function Serial(x: Instance): nat {
    match x case Given(_) => 0 case Made(serial, _, _) => serial case Produced(serial, _) => serial
  }

  /** x was built for descriptor d by call number lo or later, before call number hi: by the factory, or by the
      constructor of the implementation with one argument for every registered parameter type. */
  ghost predicate Built(s: State, d: Descriptor, x: Instance, lo: nat, hi: nat)
    decreases hi, 0
  {
    match d.factory
    case Some(f) => x.Produced? && x.factory == f && lo <= x.serial < hi
    case None =>
      && x.Made? && x.implementation == d.implementation && lo <= x.serial < hi
      && WiredTo(s, d.dependencies, x.args, lo, x.serial)
  }

  /** Every registered parameter gets its object, and nothing else is passed; of two transient parameters the
      earlier one gets the object that was built earlier. */
  ghost predicate WiredTo(s: State, params: seq<Param>, args: Args, lo: nat, hi: nat)
    decreases hi, 2
  {
    && args.Keys == Names(s.registrations, params)
    && (forall p :: p in params && p.typ in s.registrations ==> ArgFor(s, p, args[p.name], lo, hi))
    && InTurn(s, params, args)
  }

  ghost predicate InTurn(s: State, params: seq<Param>, args: Args) {
    forall i, j :: 0 <= i < j < |params| && OwnObject(s, params[i]) && OwnObject(s, params[j]) ==>
      params[i].name in args && params[j].name in args && Serial(args[params[i].name]) < Serial(args[params[j].name])
  }

  predicate OwnObject(s: State, p: Param) {
    p.typ in s.registrations && s.registrations[p.typ].scope.Transient?
  }

  /** A singleton or scoped parameter is the object in the cache; a transient one is built for it, and wired the
      same way in turn. */
  ghost predicate ArgFor(s: State, p: Param, x: Instance, lo: nat, hi: nat)
    requires p.typ in s.registrations
    decreases hi, 1
  {
    match s.registrations[p.typ].scope
    case Singleton => p.typ in s.singletons && x == s.singletons[p.typ]
    case Scoped => p.typ in s.scoped && x == s.scoped[p.typ]
    case Transient => Built(s, s.registrations[p.typ], x, lo, hi)
  }

  /** What is cached in s and was not in b was built for its type by call number lo or later. */
  ghost predicate CachedSince(b: State, s: State, lo: nat) {
    && (forall t :: t in s.singletons && t !in b.singletons ==>
          t in s.registrations && Built(s, s.registrations[t], s.singletons[t], lo, s.calls))
    && (forall t :: t in s.scoped && t !in b.scoped ==>
          t in s.registrations && Built(s, s.registrations[t], s.scoped[t], lo, s.calls))
  }

  lemma {:induction false} BuiltStays(s: State, s': State, d: Descriptor, x: Instance, lo: nat, hi: nat, lo': nat,
                                      hi': nat)
    requires Built(s, d, x, lo, hi) && Extends(s, s') && s'.registrations == s.registrations && lo' <= lo && hi <= hi'
    ensures Built(s', d, x, lo', hi')
    decreases hi, 0
  {
    if d.factory.None? { WiredStays(s, s', d.dependencies, x.args, lo, x.serial, lo', x.serial); }
  }

  lemma {:induction false} WiredStays(s: State, s': State, params: seq<Param>, args: Args, lo: nat, hi: nat, lo': nat,
                                      hi': nat)
    requires WiredTo(s, params, args, lo, hi) && Extends(s, s') && s'.registrations == s.registrations
    requires lo' <= lo && hi <= hi'
    ensures WiredTo(s', params, args, lo', hi')
    decreases hi, 1
  {
    forall p | p in params && p.typ in s.registrations ensures ArgFor(s', p, args[p.name], lo', hi') {
      if s.registrations[p.typ].scope.Transient? {
        BuiltStays(s, s', s.registrations[p.typ], args[p.name], lo, hi, lo', hi');
      }
    }
  }

  /** s' caches what s caches, and possibly x for t. */
  lemma SinceStays(b: State, s: State, s': State, lo: nat, t: string, x: Instance)
    requires CachedSince(b, s, lo) && Extends(s, s') && s'.registrations == s.registrations
    requires t in s.registrations && Built(s, s.registrations[t], x, lo, s.calls)
    requires forall u :: u in s'.singletons ==> u in s.singletons || (u == t && s'.singletons[u] == x)
    requires forall u :: u in s'.scoped ==> u in s.scoped || (u == t && s'.scoped[u] == x)
    ensures CachedSince(b, s', lo)
  {
    hide Built;
    BuiltStays(s, s', s.registrations[t], x, lo, s.calls, lo, s'.calls);
    forall u | u in s'.singletons && u !in b.singletons
      ensures u in s'.registrations && Built(s', s'.registrations[u], s'.singletons[u], lo, s'.calls)
    {
      if u in s.singletons { BuiltStays(s, s', s.registrations[u], s.singletons[u], lo, s.calls, lo, s'.calls); }
    }
    forall u | u in s'.scoped && u !in b.scoped
      ensures u in s'.registrations && Built(s', s'.registrations[u], s'.scoped[u], lo, s'.calls)
    {
      if u in s.scoped { BuiltStays(s, s', s.registrations[u], s.scoped[u], lo, s.calls, lo, s'.calls); }
    }
  }

  lemma SinceSame(b: State, s: State, s': State, lo: nat)
    requires CachedSince(b, s, lo) && s'.registrations == s.registrations && s.calls <= s'.calls && Extends(s, s')
    requires s'.singletons == s.singletons && s'.scoped == s.scoped
    ensures CachedSince(b, s', lo)
  {
    hide Built;
    forall u | u in s.singletons && u !in b.singletons
      ensures Built(s', s.registrations[u], s.singletons[u], lo, s'.calls)
    {
      BuiltStays(s, s', s.registrations[u], s.singletons[u], lo, s.calls, lo, s'.calls);
    }
    forall u | u in s.scoped && u !in b.scoped ensures Built(s', s.registrations[u], s.scoped[u], lo, s'.calls) {
      BuiltStays(s, s', s.registrations[u], s.scoped[u], lo, s.calls, lo, s'.calls);
    }
  }

  lemma {:induction false} ResolveMakesFrom(b: State, s: State, t: string, lo: nat)
    requires s.Valid() && CachedSince(b, s, lo) && lo <= s.calls
    ensures var (s', r) := Resolution(s, t);
      && CachedSince(b, s', lo)
      && (r.Resolved? && !s.InCache(t) ==> Built(s', s.registrations[t], r.instance, s.calls, s'.calls))
    decreases s.registrations.Keys - s.resolving, 0
  {
    hide Built, CachedSince, Create, Keep;
    if t in s.registrations && !s.InCache(t) && t !in s.resolving {
      var s0, d := s.(resolving := s.resolving + {t}), s.registrations[t];
      SinceSame(b, s, s0, lo);
      CreateKeeps(s0, d);
      CreateMakesFrom(b, s0, d, lo);
      var (s1, r) := Create(s0, d);
      var s' := Resolution(s, t).0;
      if r.Resolved? {
        KeepKeeps(s1, s.resolving, t, r.instance);
        BuiltStays(s1, s', d, r.instance, s.calls, s1.calls, s.calls, s'.calls);
        BuiltStays(s1, s1, d, r.instance, s.calls, s1.calls, lo, s1.calls);
        KeepAdds(s1, s.resolving, t, r.instance);
        SinceStays(b, s1, s', lo, t, r.instance);
      } else {
        SinceSame(b, s1, s', lo);
      }
    }
  }

  lemma KeepAdds(s: State, outer: set<string>, t: string, x: Instance)
    requires t in s.registrations
    ensures var s' := Keep(s, t, x).(resolving := outer);
      && s'.calls == s.calls && s'.registrations == s.registrations
      && (forall u :: u in s'.singletons ==> u in s.singletons || (u == t && s'.singletons[u] == x))
      && (forall u :: u in s'.scoped ==> u in s.scoped || (u == t && s'.scoped[u] == x))
  {}

  lemma {:induction false} CreateMakesFrom(b: State, s: State, d: Descriptor, lo: nat)
    requires s.Valid() && DistinctNames(d.dependencies) && CachedSince(b, s, lo) && lo <= s.calls
    ensures var (s', r) := Create(s, d);
      && CachedSince(b, s', lo)
      && (r.Resolved? ==> Built(s', d, r.instance, s.calls, s'.calls))
    decreases s.registrations.Keys - s.resolving, |d.dependencies| + 3
  {
    hide CachedSince, Supply, Built, WiredTo;
    if d.factory.Some? {
      FactoryBuilds(b, s, d, lo);
    } else {
      NothingWired(s, s.calls);
      var params := d.dependencies;
      assert params[..0] == [] && params[0..] == params;
      SupplyKeeps(s, params, map[]);
      SupplyMakesFrom(b, s, params, 0, map[], lo, s.calls);
      var (s1, r, args) := Supply(s, params, map[]);
      if r.None? { ConstructorBuilds(b, s1, d, args, lo, s.calls); }
    }
  }

  lemma NothingWired(s: State, hi: nat)
    ensures WiredTo(s, [], map[], hi, hi)
  {}

  lemma FactoryBuilds(b: State, s: State, d: Descriptor, lo: nat)
    requires CachedSince(b, s, lo) && d.factory.Some?
    ensures var s' := s.(calls := s.calls + 1);
      CachedSince(b, s', lo) && Built(s', d, Produced(s.calls, d.factory.value), s.calls, s.calls + 1)
  {
    SinceSame(b, s, s.(calls := s.calls + 1), lo);
  }

  lemma ConstructorBuilds(b: State, s: State, d: Descriptor, args: Args, lo: nat, from: nat)
    requires CachedSince(b, s, lo) && d.factory.None? && from <= s.calls
      && WiredTo(s, d.dependencies, args, from, s.calls)
    ensures var s' := s.(calls := s.calls + 1);
      CachedSince(b, s', lo) && Built(s', d, Made(s.calls, d.implementation, args), from, s.calls + 1)
  {
    var s' := s.(calls := s.calls + 1);
    SinceSame(b, s, s', lo);
    hide CachedSince;
    WiredStays(s, s', d.dependencies, args, from, s.calls, from, s.calls);
  }

  lemma {:induction false} SupplyMakesFrom(b: State, s: State, params: seq<Param>, i: nat, args: Args, lo: nat,
                                           from: nat)
    requires s.Valid() && DistinctNames(params) && i <= |params| && lo <= from <= s.calls
    requires CachedSince(b, s, lo) && WiredTo(s, params[..i], args, from, s.calls)
    ensures var (s', r, args') := Supply(s, params[i..], args);
      && CachedSince(b, s', lo)
      && (r.None? ==> WiredTo(s', params, args', from, s'.calls))
    decreases s.registrations.Keys - s.resolving, |params| - i + 2
  {
    hide CachedSince, WiredTo, SupplyOne;
    if i == |params| {
      assert params[..i] == params;
    } else {
      assert params[i..][1..] == params[i + 1..];
      if params[i].typ in s.registrations { ResolveMakesFrom(b, s, params[i].typ, lo); }
      SupplyOneMakes(b, s, params, i, args, lo, from);
      var (s1, r, args1) := SupplyOne(s, params[i], args);
      if r.None? { SupplyMakesFrom(b, s1, params, i + 1, args1, lo, from); }
    }
  }

  lemma SupplyOneMakes(b: State, s: State, params: seq<Param>, i: nat, args: Args, lo: nat, from: nat)
    requires s.Valid() && DistinctNames(params) && i < |params| && lo <= from <= s.calls
    requires CachedSince(b, s, lo) && WiredTo(s, params[..i], args, from, s.calls)
    requires var t := params[i].typ; t in s.registrations ==>
      var (s', r) := Resolution(s, t);
      && CachedSince(b, s', lo)
      && (r.Resolved? && !s.InCache(t) ==> Built(s', s.registrations[t], r.instance, s.calls, s'.calls))
    ensures var (s', r, args') := SupplyOne(s, params[i], args);
      && s'.Valid() && s.calls <= s'.calls && CachedSince(b, s', lo)
      && (r.None? ==> WiredTo(s', params[..i + 1], args', from, s'.calls))
  {
    hide CachedSince, Built, Resolution;
    var p := params[i];
    assert forall q :: q in params[..i + 1] <==> q in params[..i] || q == p;
    if p.typ in s.registrations {
      ResolveKeeps(s, p.typ);
      var (s1, r) := Resolution(s, p.typ);
      if r.Resolved? {
        WiredStays(s, s1, params[..i], args, from, s.calls, from, s1.calls);
        NewArgument(s, s1, p, r.instance, from);
        WiredAdd(s, s1, params, i, args, r.instance, from);
      }
    } else {
      WiredSkip(s, params, i, args, from, s.calls);
    }
  }

  /** What a resolution gives is right for a parameter of that type. */
  lemma NewArgument(s: State, s': State, p: Param, x: Instance, from: nat)
    requires s.Valid() && p.typ in s.registrations && Resolution(s, p.typ) == (s', Resolved(x)) && from <= s.calls
    requires !s.InCache(p.typ) ==> Built(s', s.registrations[p.typ], x, s.calls, s'.calls)
    ensures ArgFor(s', p, x, from, s'.calls)
    ensures OwnObject(s, p) ==> s.calls <= Serial(x)
  {
    hide Resolution;
    ResolveKeeps(s, p.typ);
    if OwnObject(s, p) {
      BuiltSerial(s', s.registrations[p.typ], x, s.calls, s'.calls);
      BuiltStays(s', s', s.registrations[p.typ], x, s.calls, s'.calls, from, s'.calls);
    }
  }

  lemma BuiltSerial(s: State, d: Descriptor, x: Instance, lo: nat, hi: nat)
    requires Built(s, d, x, lo, hi)
    ensures lo <= Serial(x) < hi
  {}

  lemma WiredSkip(s: State, params: seq<Param>, i: nat, args: Args, lo: nat, hi: nat)
    requires i < |params| && params[i].typ !in s.registrations && WiredTo(s, params[..i], args, lo, hi)
    ensures WiredTo(s, params[..i + 1], args, lo, hi)
  {
    hide ArgFor;
    var more := params[..i + 1];
    assert forall q :: q in more <==> q in params[..i] || q == params[i];
    forall k, l | 0 <= k < l < |more| && OwnObject(s, more[k]) && OwnObject(s, more[l])
      ensures more[k].name in args && more[l].name in args && Serial(args[more[k].name]) < Serial(args[more[l].name])
    {
      assert params[..i][k] == more[k] && params[..i][l] == more[l];
    }
  }

  /** One more argument, for a parameter whose name is new. */
  lemma WiredAdd(s: State, s': State, params: seq<Param>, i: nat, args: Args, x: Instance, from: nat)
    requires i < |params| && DistinctNames(params) && params[i].typ in s.registrations
    requires Extends(s, s') && s'.registrations == s.registrations
    requires WiredTo(s, params[..i], args, from, s.calls) && WiredTo(s', params[..i], args, from, s'.calls)
    requires ArgFor(s', params[i], x, from, s'.calls) && (OwnObject(s, params[i]) ==> s.calls <= Serial(x))
    ensures WiredTo(s', params[..i + 1], args[params[i].name := x], from, s'.calls)
  {
    hide ArgFor, InTurn;
    var p, more, args' := params[i], params[..i + 1], args[params[i].name := x];
    assert forall q :: q in more <==> q in params[..i] || q == p;
    assert forall q :: q in params[..i] ==> q.name != p.name;
    TurnAdd(s, s', params, i, args, x, from);
    forall q | q in more && q.typ in s.registrations ensures ArgFor(s', q, args'[q.name], from, s'.calls) {
      if q != p { assert q in params[..i]; }
    }
  }

  lemma TurnAdd(s: State, s': State, params: seq<Param>, i: nat, args: Args, x: Instance, from: nat)
    requires i < |params| && DistinctNames(params) && params[i].typ in s.registrations
    requires s'.registrations == s.registrations
    requires WiredTo(s, params[..i], args, from, s.calls) && (OwnObject(s, params[i]) ==> s.calls <= Serial(x))
    ensures InTurn(s', params[..i + 1], args[params[i].name := x])
  {
    hide ArgFor;
    var done, more, args' := params[..i], params[..i + 1], args[params[i].name := x];
    forall k, l | 0 <= k < l < |more| && OwnObject(s', more[k]) && OwnObject(s', more[l])
      ensures more[k].name in args' && more[l].name in args'
        && Serial(args'[more[k].name]) < Serial(args'[more[l].name])
    {
      assert done[k] == more[k] && done[k] in done && more[k].name != params[i].name;
      if l == i {
        OwnSerial(s, more[k], args[more[k].name], from, s.calls);
      } else {
        assert done[l] == more[l] && done[l] in done && more[l].name != params[i].name;
      }
    }
  }

  lemma OwnSerial(s: State, p: Param, x: Instance, lo: nat, hi: nat)
    requires OwnObject(s, p) && ArgFor(s, p, x, lo, hi)
    ensures lo <= Serial(x) < hi
  {}

  /** What a resolution gives for a type: the cached object, or one built for it during this very resolution; and
      so is everything that it newly caches, even if it fails. */
  lemma ResolveMakes(s: State, t: string)
    requires s.Valid()
    ensures var (s', r) := Resolution(s, t);
      && CachedSince(s, s', s.calls)
      && (r.Resolved? && s.InCache(t) ==> r.instance == Lookup(s, t))
      && (r.Resolved? && !s.InCache(t) ==> Built(s', s.registrations[t], r.instance, s.calls, s'.calls))
  {
    hide Built;
    ResolveKeeps(s, t);
    ResolveMakesFrom(s, s, t, s.calls);
  }

  // ----- cycle detection

  function Registered(regs: map<string, Descriptor>, params: seq<Param>): set<string> {
    set p | p in params && p.typ in regs :: p.typ
  }

  /** The edges `resolve` follows: from registered, uncached types without a factory to their
      registered parameter types. */
  function Needs(s: State): Graph {
    map t | t in s.registrations ::
      if s.InCache(t) || s.registrations[t].factory.Some? then {}
      else Registered(s.registrations, s.registrations[t].dependencies)
  }

  /** Every cached type is bounded in g. */
  ghost predicate Settled(g: Graph, blocked: set<string>, s: State, n: nat) {
    forall t :: t in s.registrations && s.InCache(t) ==> Bounded(g, blocked, t, n)
  }

  /** The parameters handled so far are bounded in g. */
  ghost predicate Supplied(g: Graph, blocked: set<string>, s: State, params: seq<Param>, n: nat) {
    forall p :: p in params && p.typ in s.registrations ==> Bounded(g, blocked, p.typ, n)
  }

  /** A fact about a smaller graph, from a state with more cached types, carried to the larger one. */
  lemma BoundedEarlier(s0: State, s: State, blocked: set<string>, x: string, n: nat, m: nat)
    requires Extends(s0, s) && s.registrations == s0.registrations
    requires Settled(Needs(s0), blocked, s, m) && Bounded(Needs(s), blocked, x, n)
    ensures Bounded(Needs(s0), blocked, x, n + m)
  {
    var gone := set y | y in s.registrations && s.InCache(y);
    BoundedThroughCut(Needs(s0), Needs(s), blocked, gone, x, n, m);
  }

  lemma {:induction false} ResolveDetects(s: State, t: string) returns (n: nat)
    requires s.Valid()
    ensures var (s', r) := Resolution(s, t);
      && (r.Circular? ==> LassoTo(Needs(s), s.resolving, t, r.typ))
      && (r.Resolved? ==> Bounded(Needs(s), s.resolving, t, n) && Settled(Needs(s), s.resolving, s', n))
    decreases s.registrations.Keys - s.resolving, 0
  {
    n := 0;
    if t in s.registrations && !s.InCache(t) {
      if t in s.resolving {
        assert Walk(Needs(s), [t]);
      } else {
        var s0 := s.(resolving := s.resolving + {t});
        assert Needs(s0) == Needs(s) && s0.resolving - {t} == s.resolving;
        n := CreateDetects(s0, t);
        var (s1, r) := Create(s0, s.registrations[t]);
        if r.Resolved? {
          KeepSettled(Needs(s), s.resolving, s1, t, r.instance, n);
        }
      }
    }
  }

  lemma KeepSettled(g: Graph, outer: set<string>, s: State, t: string, x: Instance, n: nat)
    requires t in s.registrations && Settled(g, outer, s, n) && Bounded(g, outer, t, n)
    ensures Settled(g, outer, Keep(s, t, x).(resolving := outer), n)
  {}

  lemma {:induction false} CreateDetects(s: State, t: string) returns (n: nat)
    requires s.Valid() && t in s.registrations && t in s.resolving && !s.InCache(t)
    ensures var (s', r) := Create(s, s.registrations[t]); var outer := s.resolving - {t};
      && (r.Circular? ==> LassoTo(Needs(s), outer, t, r.typ))
      && (r.Resolved? ==> Bounded(Needs(s), outer, t, n) && Settled(Needs(s), outer, s', n))
    decreases s.registrations.Keys - s.resolving, |s.registrations[t].dependencies| + 3
  {
    n := 0;
    var params := s.registrations[t].dependencies;
    if s.registrations[t].factory.None? {
      assert params[0..] == params;
      var m := SupplyDetects(s, t, s, 0, map[], 0);
      var (s1, r, args) := Supply(s, params, map[]);
      if r.None? {
        Leave(s, t, s1, m);
        n := m + 1;
        var s' := s1.(calls := s1.calls + 1);
        assert Create(s, s.registrations[t]).0 == s';
        assert forall x :: s'.InCache(x) == s1.InCache(x);
      } else {
        SupplyKeeps(s, params, map[]);
      }
    }
  }

  /** Once its parameters are supplied, t itself is bounded, with t no longer blocked. */
  lemma Leave(s0: State, t: string, s: State, m: nat)
    requires t in s0.registrations && s.registrations == s0.registrations && s.resolving == s0.resolving
    requires Settled(Needs(s0), s.resolving, s, m)
    requires Supplied(Needs(s0), s.resolving, s, s0.registrations[t].dependencies, m)
    ensures Bounded(Needs(s0), s.resolving - {t}, t, m + 1)
    ensures Settled(Needs(s0), s.resolving - {t}, s, m + 1)
  {
    var g, outer := Needs(s0), s.resolving - {t};
    forall x | x in s.registrations && s.InCache(x) ensures Bounded(g, outer, x, m + 1) {
      BoundedMonotone(g, s.resolving, x, m, m + 1);
      BoundedShrink(g, s.resolving, outer, x, m + 1);
    }
    forall x | x in Succ(g, t) ensures Bounded(g, outer, x, m) {
      BoundedShrink(g, s.resolving, outer, x, m);
    }
  }

  /** What holds while the parameters of t are supplied: s0 is the state at entry, s the current one. */
  ghost predicate Supplying(s0: State, t: string, s: State, i: nat, m: nat) {
    && t in s0.registrations && t in s0.resolving && !s0.InCache(t) && s0.registrations[t].factory.None?
    && s.Valid() && Extends(s0, s) && s.registrations == s0.registrations && s.resolving == s0.resolving
    && i <= |s0.registrations[t].dependencies|
    && Settled(Needs(s0), s.resolving, s, m)
    && Supplied(Needs(s0), s.resolving, s, s0.registrations[t].dependencies[..i], m)
  }

  lemma {:induction false} SupplyDetects(s0: State, t: string, s: State, i: nat, args: Args, m: nat) returns (n: nat)
    requires Supplying(s0, t, s, i, m)
    ensures var params := s0.registrations[t].dependencies;
      var (s', r, _) := Supply(s, params[i..], args);
      && (r.None? ==> Settled(Needs(s0), s.resolving, s', n) && Supplied(Needs(s0), s.resolving, s, params, n))
      && (r.Some? && r.value.Circular? ==> LassoTo(Needs(s0), s.resolving - {t}, t, r.value.typ))
    decreases s.registrations.Keys - s.resolving, |s0.registrations[t].dependencies| - i + 1
  {
    var params := s0.registrations[t].dependencies;
    n := m;
    if i == |params| {
      assert params[..i] == params;
    } else {
      assert params[i..][1..] == params[i + 1..];
      var k := 0;
      if params[i].typ in s.registrations {
        k := ResolveDetects(s, params[i].typ);
      }
      SupplyOneDetects(s0, t, s, i, args, m, k);
      var (s1, r, args1) := SupplyOne(s, params[i], args);
      if r.None? {
        n := SupplyDetects(s0, t, s1, i + 1, args1, k + m);
      }
    }
  }

  lemma SupplyOneDetects(s0: State, t: string, s: State, i: nat, args: Args, m: nat, k: nat)
    requires Supplying(s0, t, s, i, m) && i < |s0.registrations[t].dependencies|
    requires var x := s0.registrations[t].dependencies[i].typ; x in s.registrations ==> var (s', r) := Resolution(s, x);
      && (r.Circular? ==> LassoTo(Needs(s), s.resolving, x, r.typ))
      && (r.Resolved? ==> Bounded(Needs(s), s.resolving, x, k) && Settled(Needs(s), s.resolving, s', k))
    ensures var (s', r, _) := SupplyOne(s, s0.registrations[t].dependencies[i], args);
      && (r.None? ==> Supplying(s0, t, s', i + 1, k + m))
      && (r.Some? && r.value.Circular? ==> LassoTo(Needs(s0), s.resolving - {t}, t, r.value.typ))
  {
    var params, g := s0.registrations[t].dependencies, Needs(s0);
    var p := params[i];
    var (s1, r, _) := SupplyOne(s, p, args);
    assert forall q :: q in params[..i + 1] <==> q in params[..i] || q == p;
    if r.Some? {
      if r.value.Circular? {
        CircleUp(s0, t, s, p.typ, r.value.typ);
      }
      return;
    }
    if p.typ in s.registrations {
      ResolveKeeps(s, p.typ);
      BoundedEarlier(s0, s, s.resolving, p.typ, k, m);
    }
    forall x | x in s1.registrations && s1.InCache(x) ensures Bounded(g, s.resolving, x, k + m) {
      if p.typ in s.registrations {
        BoundedEarlier(s0, s, s.resolving, x, k, m);
      } else {
        BoundedMonotone(g, s.resolving, x, m, k + m);
      }
    }
    forall q | q in params[..i] && q.typ in s.registrations ensures Bounded(g, s.resolving, q.typ, k + m) {
      BoundedMonotone(g, s.resolving, q.typ, m, k + m);
    }
  }

  lemma CircleUp(s0: State, t: string, s: State, x: string, u: string)
    requires t in s0.resolving && s.resolving == s0.resolving && s.registrations == s0.registrations && Extends(s0, s)
    requires x in Succ(Needs(s0), t) && LassoTo(Needs(s), s.resolving, x, u)
    ensures LassoTo(Needs(s0), s.resolving - {t}, t, u)
  {
    LassoInLarger(Needs(s), Needs(s0), s.resolving, x, u);
    assert s.resolving == (s.resolving - {t}) + {t};
    LassoExtends(Needs(s0), s.resolving - {t}, t, x, u);
  }

  /** The circular-dependency error is raised exactly for lassos, unless some call raises first. */
  lemma CircularIffLasso(s: State, t: string)
    requires s.Valid() && t in s.registrations
    requires forall k :: s.calls <= k < Resolution(s, t).0.calls ==> !s.raises(k)
    ensures Resolution(s, t).1.Circular? <==> LassoFrom(Needs(s), s.resolving, t)
    ensures Resolution(s, t).1.Resolved? <==> !LassoFrom(Needs(s), s.resolving, t)
  {
    ResolveKeeps(s, t);
    var n := ResolveDetects(s, t);
    if Resolution(s, t).1.Resolved? {
      BoundedHasNoLasso(Needs(s), s.resolving, t, n);
    }
    if Resolution(s, t).1.Circular? { LassoSomewhere(Needs(s), s.resolving, t, Resolution(s, t).1.typ); }
  }

  /** At the top level: exactly when a cycle is reachable through registered, uncached, factory-less types. */
  lemma CircularIffCycleReachable(s: State, t: string)
    requires s.Valid() && s.resolving == {} && t in s.registrations
    requires forall k :: s.calls <= k < Resolution(s, t).0.calls ==> !s.raises(k)
    ensures Resolution(s, t).1.Circular? <==> CycleReachable(Needs(s), t)
    ensures Resolution(s, t).1.Resolved? <==> !CycleReachable(Needs(s), t)
  {
    CircularIffLasso(s, t);
    LassoIsCycle(Needs(s), t);
  }

  /** Even when constructors raise: no object without an acyclic graph, no circular error without a cycle; and the
      error names a type that lies on a reachable one. */
  lemma OutcomeSound(s: State, t: string)
    requires s.Valid() && s.resolving == {}
    ensures var r := Resolution(s, t).1;
      && (r.Resolved? ==> !CycleReachable(Needs(s), t))
      && (r.Circular? ==> CycleReachable(Needs(s), t))
      && (r.Circular? ==> exists p :: Walk(Needs(s), p) && p[0] == t && p[|p| - 1] == r.typ && Repeats(p))
  {
    var n := ResolveDetects(s, t);
    var r := Resolution(s, t).1;
    if r.Resolved? {
      BoundedHasNoLasso(Needs(s), {}, t, n);
    } else if r.Circular? {
      LassoSomewhere(Needs(s), {}, t, r.typ);
    }
    LassoIsCycle(Needs(s), t);
  }

  // ----- runs of calls on one container

  datatype Op =
    | Register(interface: string, descriptor: Descriptor)
    | RegisterInstance(interface: string, implementation: string, tag: nat)
    | Resolve(typ: string)
    | ClearScoped
    | ClearAll

  function Apply(s: State, op: Op): State {
    match op
    case Register(t, d) => s.(registrations := s.registrations[t := d])
    case RegisterInstance(t, implementation, tag) =>
      s.(registrations := s.registrations[t := Descriptor(implementation, Singleton, None, [])],
         singletons := s.singletons[t := Given(tag)])
    case Resolve(t) => Resolution(s, t).0
    case ClearScoped => s.(scoped := map[])
    case ClearAll => s.(registrations := map[], singletons := map[], scoped := map[], built := map[])
  }

  ghost predicate WellFormed(op: Op) { op.Register? ==> DistinctNames(op.descriptor.dependencies) }

  /** The container knows and has cached the same about a type. */
  predicate SameFor(s: State, s': State, t: string) {
    && (t in s'.registrations <==> t in s.registrations)
    && (t in s.registrations ==> s'.registrations[t] == s.registrations[t])
    && (t in s'.singletons <==> t in s.singletons) && (t in s.singletons ==> s'.singletons[t] == s.singletons[t])
    && (t in s'.scoped <==> t in s.scoped) && (t in s.scoped ==> s'.scoped[t] == s.scoped[t])
  }

  /** Registering concerns its type alone; clearing the scoped objects leaves the registrations and singletons. */
  lemma OthersUntouched(s: State, op: Op, t: string)
    requires !op.Resolve? && !op.ClearAll?
    requires op.Register? || op.RegisterInstance? ==> op.interface != t
    ensures op.ClearScoped? || SameFor(s, Apply(s, op), t)
    ensures op.ClearScoped? ==> t !in Apply(s, op).scoped && SameFor(s, Apply(s, op).(scoped := s.scoped), t)
  {}

  /** What a resolution of t gives after each kind of call: after a registration the new descriptor counts, unless
      the type is cached; after the registration of an instance that instance; after clearing the scoped objects a
      scoped type is built anew, while the singletons stay; after clearing everything nothing is registered. */
  lemma ResolveAfter(s: State, op: Op, t: string)
    requires s.Valid() && s.resolving == {} && WellFormed(op)
    ensures var s1 := Apply(s, op); var (s2, r) := Resolution(s1, t);
      && (op.Register? && op.interface == t ==>
        && (op.descriptor.scope.Singleton? && t in s.singletons ==> r == Resolved(s.singletons[t]))
        && (op.descriptor.scope.Scoped? && t in s.scoped ==> r == Resolved(s.scoped[t]))
        && (r.Resolved? && (op.descriptor.scope.Transient? || (t !in s.singletons && t !in s.scoped)) ==>
              Built(s2, op.descriptor, r.instance, s.calls, s2.calls)))
      && (op.RegisterInstance? && op.interface == t ==> r == Resolved(Given(op.tag)))
      && (op.Resolve? && op.typ == t && Resolution(s, t).1.Resolved? && !s.registrations[t].scope.Transient? ==>
        r == Resolution(s, t).1)
      && (op.ClearScoped? && r.Resolved? && s.registrations[t].scope.Scoped? ==>
        Built(s2, s.registrations[t], r.instance, s.calls, s2.calls))
      && (op.ClearScoped? && t in s.registrations && s.registrations[t].scope.Singleton? && t in s.singletons ==>
        r == Resolved(s.singletons[t]))
      && (op.ClearAll? ==> r == NotRegistered(t))
  {
    hide Built, CachedSince;
    var s1 := Apply(s, op);
    ApplyValid(s, op);
    ResolveKeeps(s1, t);
    ResolveMakes(s1, t);
    if op.Resolve? && op.typ == t { ResolveKeeps(s, t); }
  }

  function After(s: State, ops: seq<Op>, k: nat): State
    requires k <= |ops|
  {
    if k == 0 then s else Apply(After(s, ops, k - 1), ops[k - 1])
  }

  /** Between calls nothing is being resolved, and no type was constructed twice as a singleton since ClearAll. */
  lemma {:induction false} RunValid(s: State, ops: seq<Op>, k: nat)
    requires s.Valid() && s.resolving == {} && k <= |ops| && forall i :: 0 <= i < |ops| ==> WellFormed(ops[i])
    ensures var s' := After(s, ops, k);
      s'.Valid() && s'.resolving == {} && forall t :: t in s'.built ==> s'.built[t] == 1
  {
    hide Resolution, Apply;
    if k > 0 {
      RunValid(s, ops, k - 1);
      ApplyValid(After(s, ops, k - 1), ops[k - 1]);
    }
  }

  lemma ApplyValid(s: State, op: Op)
    requires s.Valid() && s.resolving == {} && WellFormed(op)
    ensures Apply(s, op).Valid() && Apply(s, op).resolving == {}
  {
    hide Resolution;
    if op.Resolve? { ResolveKeeps(s, op.typ); }
  }

  /** Once a singleton is cached, every later resolution gives that object, whatever is registered and
      resolved between, until ClearAll or another instance for the type. */
  lemma {:induction false} SingletonStays(s: State, ops: seq<Op>, k: nat, t: string)
    requires s.Valid() && s.resolving == {} && k <= |ops| && forall i :: 0 <= i < |ops| ==> WellFormed(ops[i])
    requires t in s.singletons
    requires forall i :: 0 <= i < k ==> !ops[i].ClearAll? && !(ops[i].RegisterInstance? && ops[i].interface == t)
    ensures var s' := After(s, ops, k);
      && t in s'.singletons && s'.singletons[t] == s.singletons[t]
      && (t in s'.registrations && s'.registrations[t].scope.Singleton? ==>
        Resolution(s', t) == (s', Resolved(s.singletons[t])))
  {
    if k > 0 {
      hide Resolution;
      SingletonStays(s, ops, k - 1, t);
      RunValid(s, ops, k - 1);
      if ops[k - 1].Resolve? { ResolveKeeps(After(s, ops, k - 1), ops[k - 1].typ); }
    }
  }

  // ----- the container

  class Container {
    var registrations: map<string, Descriptor>
    var singletons: map<string, Instance>
    var scopedInstances: map<string, Instance>
    var resolving: set<string>
    var calls: nat
    ghost var built: map<string, nat>
    const raises: nat -> bool

    ghost function Contents(): State reads this {
      State(registrations, singletons, scopedInstances, resolving, calls, raises, built)
    }

    constructor (raises: nat -> bool)
      ensures Contents() == State(map[], map[], map[], {}, 0, raises, map[])
      ensures Contents().Valid()
    {
      this.raises := raises;
      registrations, singletons, scopedInstances := map[], map[], map[];
      resolving, calls, built := {}, 0, map[];
    }

    method Register(interface: string, implementation: string, scope: Scope, factory: Option<nat>,
      hints: Option<seq<(string, Hint)>>)
      modifies this`registrations
      ensures Contents() ==
        Apply(old(Contents()), Op.Register(interface, Descriptor(implementation, scope, factory, Injectable(hints))))
    {
      var dependencies := AnalyzeDependencies(hints);
      registrations := registrations[interface := Descriptor(implementation, scope, factory, dependencies)];
    }

    method AnalyzeDependencies(hints: Option<seq<(string, Hint)>>) returns (dependencies: seq<Param>)
      ensures dependencies == Injectable(hints)
    {
      dependencies := [];
      if hints.None? { return; }
      for i := 0 to |hints.value|
        invariant dependencies == Classes(hints.value[..i])
      {
        assert hints.value[..i + 1][..i] == hints.value[..i];
        var (name, hint) := hints.value[i];
        if name != "return" && hint.Class? { dependencies := dependencies + [Param(name, hint.typ)]; }
      }
      assert hints.value[..|hints.value|] == hints.value;
    }

    method RegisterInstance(interface: string, implementation: string, tag: nat)
      modifies this`registrations, this`singletons
      ensures Contents() == Apply(old(Contents()), Op.RegisterInstance(interface, implementation, tag))
    {
      singletons := singletons[interface := Given(tag)];
      registrations := registrations[interface := Descriptor(implementation, Singleton, None, [])];
    }

    method ClearScoped()
      modifies this`scopedInstances
      ensures Contents() == Apply(old(Contents()), Op.ClearScoped)
    {
      scopedInstances := map[];
    }

    method ClearAll()
      modifies this`registrations, this`singletons, this`scopedInstances, this`built
      ensures Contents() == Apply(old(Contents()), Op.ClearAll)
    {
      registrations, singletons, scopedInstances, built := map[], map[], map[], map[];
    }

    method Resolve(t: string) returns (r: Outcome)
      modifies this`singletons, this`scopedInstances, this`resolving, this`calls, this`built
      ensures (Contents(), r) == Resolution(old(Contents()), t)
      ensures resolving == old(resolving)
      decreases registrations.Keys - resolving, 0
    {
      if t !in registrations {
        return NotRegistered(t);
      }
      var descriptor := registrations[t];
      if descriptor.scope.Singleton? && t in singletons {
        return Resolved(singletons[t]);
      }
      if descriptor.scope.Scoped? && t in scopedInstances {
        return Resolved(scopedInstances[t]);
      }
      if t in resolving {
        return Circular(t);
      }
      ghost var outer := resolving;
      resolving := resolving + {t};
      r := CreateInstance(descriptor);
      if r.Resolved? {
        if descriptor.scope.Singleton? {
          singletons := singletons[t := r.instance];
          built := built[t := 1 + if t in built then built[t] else 0];
        } else if descriptor.scope.Scoped? {
          scopedInstances := scopedInstances[t := r.instance];
        }
      }
      resolving := resolving - {t};
      assert resolving == outer;
    }

    method CreateInstance(descriptor: Descriptor) returns (r: Outcome)
      modifies this`singletons, this`scopedInstances, this`resolving, this`calls, this`built
      ensures (Contents(), r) == Create(old(Contents()), descriptor)
      decreases registrations.Keys - resolving, |descriptor.dependencies| + 3
    {
      if descriptor.factory.Some? {
        calls := calls + 1;
        return if raises(calls - 1) then Raised(calls - 1) else Resolved(Produced(calls - 1, descriptor.factory.value));
      }
      var kwargs: Args := map[];
      var params := descriptor.dependencies;
      assert params[0..] == params;
      for i := 0 to |params|
        invariant resolving == old(resolving)
        invariant Supply(old(Contents()), params, map[]) == Supply(Contents(), params[i..], kwargs)
      {
        assert params[i..][1..] == params[i + 1..];
        if params[i].typ in registrations {
          r := Resolve(params[i].typ);
          if !r.Resolved? {
            return;
          }
          kwargs := kwargs[params[i].name := r.instance];
        }
      }
      calls := calls + 1;
      r := if raises(calls - 1) then Raised(calls - 1)
        else Resolved(Made(calls - 1, descriptor.implementation, kwargs));
    }
  }
}
