/**
 The pure part of the injector: the JavaScript values it handles, the table
 from token to stored value, the reads `resolve`, `resolveArray` and
 `resolveDictionary`, and the value `register` stores (or the error it throws).
 The table itself, and the in-place update `register` makes to it, live in the
 class `Injector.Injector`.
 */
module Registry {

  /** A JavaScript value, as far as the injector can tell values apart. */
  datatype Value =
    | Undefined
    | Null
    | Bool(b: bool)
    | Num(x: real)                      // IEEE details (NaN, -0) are not modelled
    | Text(s: string)
    | Symbol(id: nat)                   // equal only to itself: `id` is its identity
    | Obj(ref: nat)                     // any other object, functions and arrays included, by identity;
                                        // a String or Symbol wrapper is written as the primitive it wraps
    | Dict(entries: map<string, Value>) // the plain object `resolveDictionary` builds

  /** JavaScript truthiness: `undefined`, `null`, `false`, `0` and `''` are falsy. */
  predicate Truthy(v: Value) {
    match v
    case Undefined => false
    case Null => false
    case Bool(b) => b
    case Num(x) => x != 0.0
    case Text(s) => s != ""
    case _ => true
  }

  /** The test of `assertTokenValid`: a token is a string or a symbol. */
  predicate IsToken(v: Value) {
    v.Text? || v.Symbol?
  }

  /** Which guard threw. */
  datatype Error =
    | InvalidToken       // assertTokenValid
    | AlreadyRegistered  // assertTokenUnused
    | NotRegistered      // assertTokenUsed
    | NotAFunction       // assertFactoryIsFunction
    | BadArguments       // args neither an array nor an object
    | FactoryThrew       // the user's factory threw

  /** A value, or the exception that replaced it. */
  datatype Result<T> = Ok(value: T) | Err(error: Error)

  /** What a call of a user factory does: return a value or throw. */
  datatype Completion = Returned(value: Value) | Threw

  /** The `factory` argument: a callable, or any value that is not one. */
  datatype Factory = Callable(call: seq<Value> -> Completion) | NotCallable

  /** A plain object's own enumerable string-keyed properties, in `Object.keys` order. */
  type Dictionary = seq<(string, Value)>

  /**
   The `args` argument of `register`, classified as the source does: an array,
   any other object (the default `{}` among them), or a primitive.
   */
  datatype Args = Positional(tokens: seq<Value>) | Named(entries: Dictionary) | Scalar

  /** The private `dependencies` table: token to stored value. */
  type Table = map<Value, Value>

  /** `dependencies[token]`: a missing key reads as `undefined`. */
  function Lookup(deps: Table, token: Value): Value {
    if token in deps then deps[token] else Undefined
  }

  /** What `assertTokenUnused` and `assertTokenUsed` test: the stored value is truthy. */
  predicate Registered(deps: Table, token: Value) {
    Truthy(Lookup(deps, token))
  }

  /** `resolve(token)`: check the token, check it is registered, return the stored value. */
  function Resolve(deps: Table, token: Value): (r: Result<Value>)
    ensures r.Ok? <==> IsToken(token) && token in deps && Truthy(deps[token])
    ensures r.Ok? ==> r.value == deps[token]
    ensures !IsToken(token) ==> r == Err(InvalidToken)
    ensures IsToken(token) && !Registered(deps, token) ==> r == Err(NotRegistered)
  {
    if !IsToken(token) then Err(InvalidToken)
    else if !Registered(deps, token) then Err(NotRegistered)
    else Ok(Lookup(deps, token))
  }

  /** Index `i` is the first element of `tokens` that does not resolve. */
  ghost predicate FirstFailure(deps: Table, tokens: seq<Value>, i: int) {
    && 0 <= i < |tokens|
    && Resolve(deps, tokens[i]).Err?
    && forall j :: 0 <= j < i ==> Resolve(deps, tokens[j]).Ok?
  }

  /** `resolveArray(array)`: `array.map(resolve)`, left to right, stopping at the first throw. */
  function ResolveArray(deps: Table, tokens: seq<Value>): (r: Result<seq<Value>>)
    ensures r.Ok? <==> forall i :: 0 <= i < |tokens| ==> Resolve(deps, tokens[i]).Ok?
    ensures r.Ok? ==> |r.value| == |tokens|
    ensures r.Ok? ==> forall i :: 0 <= i < |tokens| ==> r.value[i] == Resolve(deps, tokens[i]).value
    ensures r.Err? ==> exists i :: FirstFailure(deps, tokens, i) && r.error == Resolve(deps, tokens[i]).error
    decreases |tokens|
  {
    if tokens == [] then Ok([])
    else
      match Resolve(deps, tokens[0])
      case Err(e) =>
        assert FirstFailure(deps, tokens, 0);
        Err(e)
      case Ok(v) =>
        match ResolveArray(deps, tokens[1..])
        case Err(e) =>
          assert forall i :: FirstFailure(deps, tokens[1..], i) ==> FirstFailure(deps, tokens, i + 1);
          Err(e)
        case Ok(vs) => Ok([v] + vs)
  }

  /** The keys of a dictionary, in order. (Its ensures spell out the `seq` display for the verifier.) */
  function Names(entries: Dictionary): (ks: seq<string>)
    ensures |ks| == |entries| && forall i :: 0 <= i < |entries| ==> ks[i] == entries[i].0
  {
    seq(|entries|, i requires 0 <= i < |entries| => entries[i].0)
  }

  /** The values of a dictionary (here: its tokens), in key order. (Its ensures spell out the `seq` display for the verifier.) */
  function Tokens(entries: Dictionary): (ts: seq<Value>)
    ensures |ts| == |entries| && forall i :: 0 <= i < |entries| ==> ts[i] == entries[i].1
  {
    seq(|entries|, i requires 0 <= i < |entries| => entries[i].1)
  }

  /** Position `i` holds the last occurrence of its key in `ks`. */
  ghost predicate LastWithKey(ks: seq<string>, i: int)
    requires 0 <= i < |ks|
  {
    forall j :: i < j < |ks| ==> ks[j] != ks[i]
  }

  /**
   The `reduce((object, part) => Object.assign(object, part), {})` step: merge
   the one-key parts `{[ks[i]]: vs[i]}` left to right into one object, so that
   a later part overwrites an earlier one with the same key.
   */
  function Assemble(ks: seq<string>, vs: seq<Value>): (m: map<string, Value>)
    requires |ks| == |vs|
    ensures m.Keys == set k | k in ks
    ensures forall i :: 0 <= i < |ks| && LastWithKey(ks, i) ==> m[ks[i]] == vs[i]
    decreases |ks|
  {
    if ks == [] then map[]
    else
      var n := |ks| - 1;
      var m' := Assemble(ks[..n], vs[..n]);
      AssembleStep(ks, vs, ks[..n], vs[..n], m');
      m'[ks[n] := vs[n]]
  }

  /**
   The inductive step of `Assemble`: merging the last part into an object
   built from the other parts gives the keys and last-part values of all of
   them.
   */
  lemma AssembleStep(ks: seq<string>, vs: seq<Value>, prefix: seq<string>, values: seq<Value>, m': map<string, Value>)
    requires |ks| == |vs| && ks != []
    requires prefix == ks[..|ks| - 1] && values == vs[..|vs| - 1]
    requires m'.Keys == set k | k in prefix
    requires forall i :: 0 <= i < |prefix| && LastWithKey(prefix, i) ==> m'[prefix[i]] == values[i]
    ensures m'[ks[|ks| - 1] := vs[|vs| - 1]].Keys == set k | k in ks
    ensures forall i :: 0 <= i < |ks| && LastWithKey(ks, i) ==> m'[ks[|ks| - 1] := vs[|vs| - 1]][ks[i]] == vs[i]
  {
    var n := |ks| - 1;
    var m := m'[ks[n] := vs[n]];
    KeysOfPrefix(ks, prefix);
    assert m.Keys == m'.Keys + {ks[n]};
    LastOfPrefix(ks, prefix);
    forall i | 0 <= i < |ks| && LastWithKey(ks, i)
      ensures m[ks[i]] == vs[i]
    {
      if i < n {
        assert LastWithKey(prefix, i) && ks[i] != ks[n];
        assert prefix[i] == ks[i] && values[i] == vs[i];
      }
    }
  }

  /** The keys of a non-empty `ks` are those of its prefix plus its last key. */
  lemma KeysOfPrefix(ks: seq<string>, prefix: seq<string>)
    requires ks != [] && prefix == ks[..|ks| - 1]
    ensures (set k | k in ks) == (set k | k in prefix) + {ks[|ks| - 1]}
  {
    assert ks == prefix + [ks[|ks| - 1]];
  }

  /** A last occurrence before the final position is one in the prefix, with a key other than the final one. */
  lemma LastOfPrefix(ks: seq<string>, prefix: seq<string>)
    requires ks != [] && prefix == ks[..|ks| - 1]
    ensures forall i :: 0 <= i < |prefix| && LastWithKey(ks, i) ==> LastWithKey(prefix, i) && ks[i] != ks[|ks| - 1]
  {
  }

  /**
   `resolveDictionary(dictionary)`: resolve every token in key order (the
   first throw aborts) and assemble the results under the same keys.
   */
  function ResolveDictionary(deps: Table, entries: Dictionary): (r: Result<map<string, Value>>)
    ensures r.Ok? <==> forall i :: 0 <= i < |entries| ==> Resolve(deps, entries[i].1).Ok?
    ensures r.Ok? ==> r.value.Keys == set k | k in Names(entries)
    ensures r.Ok? ==> forall i :: 0 <= i < |entries| && LastWithKey(Names(entries), i) ==>
                        r.value[entries[i].0] == Resolve(deps, entries[i].1).value
    ensures r.Err? ==> exists i :: FirstFailure(deps, Tokens(entries), i) && r.error == Resolve(deps, entries[i].1).error
  {
    match ResolveArray(deps, Tokens(entries))
    case Err(e) => Err(e)
    case Ok(vs) => Ok(Assemble(Names(entries), vs))
  }

  /** How `register` calls the factory once its arguments are resolved. */
  function Call(factory: Factory, arguments: seq<Value>): Result<Value>
    requires factory.Callable?
  {
    match factory.call(arguments)
    case Returned(v) => Ok(v)
    case Threw => Err(FactoryThrew)
  }

  /**
   `register(token, factory, args)`: the value the call stores under `token`,
   or the error it throws. The guards run in the order of the source; with
   array args the factory gets the resolved values as positional arguments,
   with object args one dictionary of them.
   */
  function RegisterOutcome(deps: Table, token: Value, factory: Factory, args: Args): (r: Result<Value>)
    ensures r.Ok? ==> IsToken(token) && !Registered(deps, token) && factory.Callable? && !args.Scalar?
  {
    if !IsToken(token) then Err(InvalidToken)
    else if Registered(deps, token) then Err(AlreadyRegistered)
    else if !factory.Callable? then Err(NotAFunction)
    else
      match args
      case Positional(tokens) =>
        (match ResolveArray(deps, tokens)
         case Err(e) => Err(e)
         case Ok(vs) => Call(factory, vs))
      case Named(entries) =>
        (match ResolveDictionary(deps, entries)
         case Err(e) => Err(e)
         case Ok(d) => Call(factory, [Dict(d)]))
      case Scalar => Err(BadArguments)
  }

  /**
   The values stored under `tokens`, in order (what a successful `resolveArray`
   returns). Its ensures spell out the `seq` display for the verifier.
   */
  function StoredValues(deps: Table, tokens: seq<Value>): (vs: seq<Value>)
    ensures |vs| == |tokens| && forall i :: 0 <= i < |tokens| ==> vs[i] == Lookup(deps, tokens[i])
  {
    seq(|tokens|, i requires 0 <= i < |tokens| => Lookup(deps, tokens[i]))
  }

  // ---------------------------------------------------------------------------
  // Properties of register and resolve
  // ---------------------------------------------------------------------------

  /**
   `register` runs its guards in a fixed order (token valid, token unused,
   factory callable, args an array or an object) and the first that fails
   decides the error; it stores something only when all of them pass.
   */
  lemma RegisterGuardOrder(deps: Table, token: Value, factory: Factory, args: Args)
    ensures !IsToken(token) ==> RegisterOutcome(deps, token, factory, args) == Err(InvalidToken)
    ensures IsToken(token) && Registered(deps, token) ==>
              RegisterOutcome(deps, token, factory, args) == Err(AlreadyRegistered)
    ensures IsToken(token) && !Registered(deps, token) && factory.NotCallable? ==>
              RegisterOutcome(deps, token, factory, args) == Err(NotAFunction)
    ensures IsToken(token) && !Registered(deps, token) && factory.Callable? && args.Scalar? ==>
              RegisterOutcome(deps, token, factory, args) == Err(BadArguments)
    ensures RegisterOutcome(deps, token, factory, args).Ok? ==>
              IsToken(token) && !Registered(deps, token) && factory.Callable? && !args.Scalar?
  {
  }

  /**
   With a factory that returns, and the default args `{}`, registering an
   unused token succeeds exactly when the token is a string or a symbol.
   */
  lemma TokenKindDecidesRegister(deps: Table, token: Value, f: seq<Value> -> Completion)
    requires !Registered(deps, token)
    requires f([Dict(map[])]).Returned?
    ensures RegisterOutcome(deps, token, Callable(f), Named([])).Ok? <==> IsToken(token)
    ensures RegisterOutcome(deps, token, Callable(f), Named([])).Ok? ==>
              RegisterOutcome(deps, token, Callable(f), Named([])).value == f([Dict(map[])]).value
  {
    assert ResolveArray(deps, Tokens([])) == Ok([]);
    assert Assemble(Names([]), []) == map[];
  }

  /**
   Positional wiring: with array args the factory is called with the stored
   values of the listed tokens, in order; if one of them does not resolve, the
   first such token's error is thrown and the factory is not called.
   */
  lemma PositionalWiring(deps: Table, token: Value, factory: Factory, tokens: seq<Value>)
    requires IsToken(token) && !Registered(deps, token) && factory.Callable?
    ensures (forall i :: 0 <= i < |tokens| ==> Resolve(deps, tokens[i]).Ok?) ==>
              RegisterOutcome(deps, token, factory, Positional(tokens)) == Call(factory, StoredValues(deps, tokens))
    ensures (exists i :: 0 <= i < |tokens| && Resolve(deps, tokens[i]).Err?) ==>
              exists i :: FirstFailure(deps, tokens, i) &&
                RegisterOutcome(deps, token, factory, Positional(tokens)) == Err(Resolve(deps, tokens[i]).error)
  {
    var r := ResolveArray(deps, tokens);
    if r.Ok? {
      assert r.value == StoredValues(deps, tokens);
    }
  }

  /** Every key of `ks` has a last occurrence, at or after any of its positions. */
  lemma {:induction false} LastOccurrence(ks: seq<string>, j: int) returns (i: int)
    requires 0 <= j < |ks|
    ensures j <= i < |ks| && ks[i] == ks[j] && LastWithKey(ks, i)
    decreases |ks| - j
  {
    if LastWithKey(ks, j) {
      i := j;
    } else {
      var j' :| j < j' < |ks| && ks[j'] == ks[j];
      i := LastOccurrence(ks, j');
    }
  }

  /**
   An object is determined by its merge parts: any dictionary with the keys
   of `ks` in which each key holds the value of its last part is the one
   `Assemble` builds.
   */
  lemma AssembleUnique(ks: seq<string>, vs: seq<Value>, d: map<string, Value>)
    requires |ks| == |vs|
    requires d.Keys == set k | k in ks
    requires forall i {:trigger LastWithKey(ks, i)} :: 0 <= i < |ks| && LastWithKey(ks, i) ==> ks[i] in d && d[ks[i]] == vs[i]
    ensures Assemble(ks, vs) == d
  {
    var m := Assemble(ks, vs);
    forall k | k in d.Keys
      ensures m[k] == d[k]
    {
      var j :| 0 <= j < |ks| && ks[j] == k;
      var i := LastOccurrence(ks, j);
    }
  }

  /**
   `resolveDictionary` returns exactly the dictionary with the same keys in
   which each key maps to the stored value of its token.
   */
  lemma ResolveDictionaryExact(deps: Table, entries: Dictionary, d: map<string, Value>)
    requires forall i :: 0 <= i < |entries| ==> Resolve(deps, entries[i].1).Ok?
    requires d.Keys == set k | k in Names(entries)
    requires forall i {:trigger LastWithKey(Names(entries), i)} :: 0 <= i < |entries| && LastWithKey(Names(entries), i) ==>
               entries[i].0 in d && d[entries[i].0] == Lookup(deps, entries[i].1)
    ensures ResolveDictionary(deps, entries) == Ok(d)
  {
    var ks, ts := Names(entries), Tokens(entries);
    var vs := StoredValues(deps, ts);
    assert forall i :: 0 <= i < |ts| ==> Resolve(deps, ts[i]).Ok?;
    assert ResolveArray(deps, ts).value == vs;
    AssembleUnique(ks, vs, d);
  }

  /**
   Named wiring: with object args the factory is called with one dictionary
   holding exactly the same keys, each mapped to the stored value of its
   token; if a token does not resolve, the first failing key's error is thrown
   and the factory is not called.
   */
  lemma NamedWiring(deps: Table, token: Value, factory: Factory, entries: Dictionary, d: map<string, Value>)
    requires IsToken(token) && !Registered(deps, token) && factory.Callable?
    requires d.Keys == set k | k in Names(entries)
    requires forall i {:trigger LastWithKey(Names(entries), i)} :: 0 <= i < |entries| && LastWithKey(Names(entries), i) ==>
               entries[i].0 in d && d[entries[i].0] == Lookup(deps, entries[i].1)
    ensures (forall i :: 0 <= i < |entries| ==> Resolve(deps, entries[i].1).Ok?) ==>
              RegisterOutcome(deps, token, factory, Named(entries)) == Call(factory, [Dict(d)])
    ensures (exists i :: 0 <= i < |entries| && Resolve(deps, entries[i].1).Err?) ==>
              exists i :: FirstFailure(deps, Tokens(entries), i) &&
                RegisterOutcome(deps, token, factory, Named(entries)) == Err(Resolve(deps, entries[i].1).error)
  {
    var r := ResolveDictionary(deps, entries);
    if r.Ok? {
      ResolveDictionaryExact(deps, entries, d);
    } else {
      assert RegisterOutcome(deps, token, factory, Named(entries)) == Err(r.error);
    }
  }

  /**
   After a successful `register(token, ...)` that stored `v`: `resolve(token)`
   returns `v` when `v` is truthy and throws "not registered" when it is not;
   every other token resolves as before, and no token that was registered
   before can have been the one overwritten.
   */
  lemma RegisterThenResolve(deps: Table, token: Value, factory: Factory, args: Args, v: Value)
    requires RegisterOutcome(deps, token, factory, args) == Ok(v)
    ensures Resolve(deps[token := v], token) == if Truthy(v) then Ok(v) else Err(NotRegistered)
    ensures forall t :: t != token ==> Resolve(deps[token := v], t) == Resolve(deps, t)
    ensures forall t :: Registered(deps, t) ==> t != token && Lookup(deps[token := v], t) == Lookup(deps, t)
  {
  }

  /** Two tables that every token resolves alike in. */
  ghost predicate SameResolution(d1: Table, d2: Table) {
    forall t :: Resolve(d1, t) == Resolve(d2, t)
  }

  /** `resolveArray` sees a table only through `resolve`. */
  lemma {:induction false} ResolveArrayDependsOnResolution(d1: Table, d2: Table, tokens: seq<Value>)
    requires SameResolution(d1, d2)
    ensures ResolveArray(d1, tokens) == ResolveArray(d2, tokens)
    decreases |tokens|
  {
    if tokens != [] {
      assert Resolve(d1, tokens[0]) == Resolve(d2, tokens[0]);
      ResolveArrayDependsOnResolution(d1, d2, tokens[1..]);
    }
  }

  /** `register` sees a table only through `resolve`. */
  lemma RegisterDependsOnResolution(d1: Table, d2: Table, token: Value, factory: Factory, args: Args)
    requires SameResolution(d1, d2)
    ensures RegisterOutcome(d1, token, factory, args) == RegisterOutcome(d2, token, factory, args)
  {
    assert Resolve(d1, token) == Resolve(d2, token);
    match args
    case Positional(tokens) =>
      ResolveArrayDependsOnResolution(d1, d2, tokens);
    case Named(entries) =>
      ResolveArrayDependsOnResolution(d1, d2, Tokens(entries));
    case Scalar =>
  }

  /**
   A factory that returns a falsy value leaves the registry as it was to
   every later call: the entry is stored, but `resolve` and `register` both
   treat the token as absent, so it can be registered again.
   */
  lemma FalsyRegistrationIsInvisible(deps: Table, token: Value, factory: Factory, args: Args, v: Value)
    requires RegisterOutcome(deps, token, factory, args) == Ok(v)
    requires !Truthy(v)
    ensures SameResolution(deps, deps[token := v])
    ensures forall t, f, a :: RegisterOutcome(deps[token := v], t, f, a) == RegisterOutcome(deps, t, f, a)
  {
    var deps' := deps[token := v];
    assert SameResolution(deps, deps');
    forall t, f, a
      ensures RegisterOutcome(deps', t, f, a) == RegisterOutcome(deps, t, f, a)
    {
      RegisterDependsOnResolution(deps', deps, t, f, a);
    }
  }
}
