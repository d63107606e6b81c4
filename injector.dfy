/**
 The object `createInjector()` returns: it owns the `dependencies` table and
 changes it in place on every successful `register`. Its reads, `resolve`,
 `resolveArray` and `resolveDictionary`, are the functions of the same names
 in `Registry`, applied to the current table.
 */
module Injector {
  import opened Registry

  /** The outcome of a `register` call: it returns nothing, or it throws. */
  datatype Outcome = Done | Failed(error: Error)

  class Injector {
    /** The private token-to-value table. */
    var dependencies: Table

    /**
     Only strings and symbols are ever used as keys, as for any JavaScript
     property key; this records the key types only, and no contract needs more.
     */
    ghost predicate Valid()
      reads this
    {
      forall k :: k in dependencies ==> IsToken(k)
    }

    /** `createInjector()`: a fresh injector with an empty table. */
    constructor ()
      ensures Valid()
      ensures dependencies == map[]
    {
      dependencies := map[];
    }

    /**
     `register(token, factory, args = {})`: run the guards, resolve the
     arguments, call the factory at once and store what it returns under
     `token`. On any failure the table is left as it was.
     */
    method Register(token: Value, factory: Factory, args: Args := Named([])) returns (outcome: Outcome)
      requires Valid()
      modifies this
      ensures Valid()
      ensures RegisterOutcome(old(dependencies), token, factory, args).Ok? ==>
                && outcome == Done
                && dependencies == old(dependencies)[token := RegisterOutcome(old(dependencies), token, factory, args).value]
      ensures RegisterOutcome(old(dependencies), token, factory, args).Err? ==>
                && outcome == Failed(RegisterOutcome(old(dependencies), token, factory, args).error)
                && dependencies == old(dependencies)
      ensures forall t :: Registered(old(dependencies), t) ==> t in dependencies && dependencies[t] == old(dependencies)[t]
    {
      if !IsToken(token) {
        return Failed(InvalidToken);
      }
      if Registered(dependencies, token) {
        return Failed(AlreadyRegistered);
      }
      if factory.NotCallable? {
        return Failed(NotAFunction);
      }
      var completion: Completion;
      match args {
        case Positional(tokens) =>
          var values := ResolveArray(dependencies, tokens);
          if values.Err? {
            return Failed(values.error);
          }
          completion := factory.call(values.value);
        case Named(entries) =>
          var dictionary := ResolveDictionary(dependencies, entries);
          if dictionary.Err? {
            return Failed(dictionary.error);
          }
          completion := factory.call([Dict(dictionary.value)]);
        case Scalar =>
          return Failed(BadArguments);
      }
      if completion.Threw? {
        return Failed(FactoryThrew);
      }
      dependencies := dependencies[token := completion.value];
      outcome := Done;
    }
  }

  /** A factory that ignores its arguments and returns `v`, like `() => dependency`. */
  function Constant(v: Value): Factory {
    Callable(_ => Returned(v))
  }

  /** Strings and symbols are accepted as tokens; objects, numbers, booleans, `undefined` and `null` are not. */
  method TokenKinds() {
    var injector := new Injector();
    var outcome := injector.Register(Symbol(0), Constant(Obj(0)));
    assert outcome == Done;
    outcome := injector.Register(Text("token"), Constant(Obj(1)));
    assert outcome == Done;
    outcome := injector.Register(Obj(2), Constant(Obj(3)));
    assert outcome == Failed(InvalidToken);
    outcome := injector.Register(Num(123.324), Constant(Obj(3)));
    assert outcome == Failed(InvalidToken);
    outcome := injector.Register(Bool(true), Constant(Obj(3)));
    assert outcome == Failed(InvalidToken);
    outcome := injector.Register(Undefined, Constant(Obj(3)));
    assert outcome == Failed(InvalidToken);
    outcome := injector.Register(Null, Constant(Obj(3)));
    assert outcome == Failed(InvalidToken);
  }

  /** A registered singleton resolves to the very value its factory returned; an unregistered token throws. */
  method ResolveSingleton() {
    var injector := new Injector();
    assert Resolve(injector.dependencies, Symbol(0)) == Err(NotRegistered);
    var outcome := injector.Register(Symbol(1), Constant(Obj(7)));
    assert outcome == Done;
    assert Resolve(injector.dependencies, Symbol(1)) == Ok(Obj(7));
    // A second registration of the same token throws, whatever is passed as the factory.
    outcome := injector.Register(Symbol(1), NotCallable);
    assert outcome == Failed(AlreadyRegistered);
    assert Resolve(injector.dependencies, Symbol(1)) == Ok(Obj(7));
  }

  /** The factory of a dependent gets one dictionary holding the resolved dependency under its key. */
  method WireByDictionary() {
    var injector := new Injector();
    var needed, dependent := Symbol(0), Symbol(1);
    var outcome := injector.Register(needed, Constant(Obj(7)));
    assert outcome == Done;
    var copyProps := Callable(vs => if |vs| == 1 then Returned(vs[0]) else Threw);
    outcome := injector.Register(dependent, copyProps, Named([("dependency", needed)]));
    assert Assemble(["dependency"], [Obj(7)]) == map["dependency" := Obj(7)];
    assert outcome == Done;
    assert Resolve(injector.dependencies, dependent) == Ok(Dict(map["dependency" := Obj(7)]));
  }

  /** The factory of a dependent gets the resolved dependencies as positional arguments. */
  method WireByArray() {
    var injector := new Injector();
    var needed, dependent := Symbol(0), Symbol(1);
    var outcome := injector.Register(needed, Constant(Obj(7)));
    assert outcome == Done;
    var wrap := Callable(vs => if |vs| == 1 then Returned(Dict(map["dependency" := vs[0]])) else Threw);
    outcome := injector.Register(dependent, wrap, Positional([needed]));
    assert outcome == Done;
    assert Resolve(injector.dependencies, dependent) == Ok(Dict(map["dependency" := Obj(7)]));
  }

  /** A factory returning a falsy value stores it, yet the token stays unregistered and can be registered again. */
  method FalsyFactoryResult() {
    var injector := new Injector();
    var outcome := injector.Register(Text("zero"), Constant(Num(0.0)));
    assert outcome == Done;
    assert Resolve(injector.dependencies, Text("zero")) == Err(NotRegistered);
    outcome := injector.Register(Text("zero"), Constant(Num(1.0)));
    assert outcome == Done;
    assert Resolve(injector.dependencies, Text("zero")) == Ok(Num(1.0));
  }
}
