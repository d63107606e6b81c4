# dependency-injector, modelled in Dafny

A model of the injector registry that `createInjector()` builds in `index.js`.
The registry keeps a private table, `dependencies`, that maps a token (a string
or a symbol) to a stored value. Its object offers four operations:

- `register(token, factory, args = {})` runs four guards in order: the token is valid, the token is not yet registered, the factory is a function, and `args` is an array or an object. It then resolves the arguments, calls the factory *at once*, and stores what the factory returns.
- `resolve(token)` checks the token and returns the stored value.
- `resolveArray(tokens)` resolves every element, in order.
- `resolveDictionary(dict)` resolves every value of a name-to-token object and returns an object with the same keys.

Two files:

- `registry.dfy`, module `Registry`. This is the pure part:
  - JavaScript values (`Value`) and their truthiness (`Truthy`).
  - The token test (`IsToken`).
  - The table (`Table`, `Lookup`, `Registered`).
  - The three reads, `Resolve`, `ResolveArray` and `ResolveDictionary`, as functions of the table that return a `Result`.
  - `RegisterOutcome`, the value `register` stores or the error it throws.
  - The lemmas about all of these.
- `injector.dfy`, module `Injector`. This holds the class `Injector`, whose `dependencies` field is the table. Its `Register` method updates that field in place. Five client methods (`TokenKinds`, `ResolveSingleton`, `WireByDictionary`, `WireByArray`, `FalsyFactoryResult`) replay the scenarios of `test.js` and a falsy-result case against the method's contract.

Modelling decisions:

- **Eager factory calls.** The factory runs inside `register` (index.js:23, index.js:25). It runs once per successful registration. There is no lazy or memoised state, and an argument token must already be registered when its dependent is registered. A lazily memoising registry would call the factory at the first `resolve`; this code calls it inside `register`, and so does the model.
- **Truthiness, not membership.** "Registered" means the stored value is truthy (`Registered`, index.js:61, index.js:65). A factory that returns `undefined`, `null`, `false`, `0` or `''` still gets its result stored. `resolve` and `register` then both treat the token as absent (`FalsyRegistrationIsInvisible`).
- **Tokens and values.** Any JavaScript value can be passed as a token. The guard accepts strings and symbols, which the model writes `Text` and `Symbol`; a `String` or `Symbol` wrapper object is represented by the primitive it wraps, since it keys the same entry. A symbol's `id` is its identity, so two symbols are equal only when they are the same symbol, and a symbol never equals a string. `Obj(ref)` stands for any other object by identity, so "the same instance" is Dafny equality.
- **Factories.** A factory is `Callable(call)` for a function or `NotCallable` for anything else. `call` maps the argument list to `Returned(v)` or `Threw`.
  - With array args, the factory gets the resolved values as separate positional arguments.
  - With object args, it gets one argument: the `Dict` that `resolveDictionary` builds.
- **Argument shapes.** `Args` sorts `args` the way `isArray`/`isObject` do:
  - `Positional(tokens)` for an array.
  - `Named(entries)` for any other object. The entries are its own enumerable string-keyed properties in `Object.keys` order. The order matters because the first token that fails decides the error. A later entry with the same key overwrites an earlier one, as `Object.assign` does.
  - `Scalar` for a primitive.
  The default `{}` is `Named([])`.
- **Errors.** Each `throw` is an `Error` naming the guard that fired. Resolving the arguments can also throw `InvalidToken` or `NotRegistered`.

## Model

| member | source | states |
|---|---|---|
| `Registry.Resolve` | index.js:31-36 | succeeds exactly for a string or symbol token whose stored value is truthy, and then returns that stored value; throws `InvalidToken` for any other kind of token, otherwise `NotRegistered` |
| `Registry.ResolveArray` | index.js:44-46 | succeeds exactly when every element resolves; the result has the same length and element i is `resolve(tokens[i])`; on failure the error is that of the first element that does not resolve |
| `Registry.Assemble` | index.js:39-41 | merging the one-key parts left to right gives an object whose keys are exactly the parts' keys, each holding the value of its last part |
| `Registry.AssembleUnique` | index.js:39-41 | any dictionary with those keys and last-part values is the merged object itself |
| `Registry.ResolveDictionary` | index.js:38-42 | succeeds exactly when every token resolves; the result has exactly the input's keys, each mapped to `resolve` of its token; on failure the error is that of the first key, in key order, whose token does not resolve |
| `Registry.ResolveDictionaryExact` | index.js:38-42 | the result is the dictionary with the same keys in which each key holds the stored value of its token |
| `Registry.RegisterOutcome` | index.js:17-29 | the value `register` stores or the error it throws; its ensures says success means all four guards passed, and `RegisterGuardOrder`, `TokenKindDecidesRegister`, `PositionalWiring`, `NamedWiring` and `RegisterThenResolve` characterise it fully |
| `Registry.RegisterGuardOrder` | index.js:17-28 | the guards run in order (token valid, token unused, factory a function, args an array or object) and the first failing one decides the error; registering a token whose stored value is truthy fails whatever the factory and args; scalar args throw; success implies all four guards passed |
| `Registry.TokenKindDecidesRegister` | index.js:17-18 | with an unused token, a returning factory and the default `{}`, registration succeeds exactly when the token is a string or a symbol, and stores the factory's result |
| `Registry.PositionalWiring` | index.js:22-23 | with array args the factory is called with the stored values of the listed tokens, in order; if one does not resolve, the first failing token's error is thrown and the factory is not called |
| `Registry.NamedWiring` | index.js:24-25 | with object args the factory is called with one dictionary holding exactly the same keys, each mapped to the stored value of its token; a failing token aborts with the first failing key's error |
| `Registry.RegisterThenResolve` | index.js:23-35 | after a successful registration that stored `v`, `resolve(token)` returns `v` if it is truthy and throws `NotRegistered` if not; every other token resolves as before; no previously registered token is overwritten |
| `Registry.ResolveArrayDependsOnResolution` | index.js:44-46 | two tables in which every token resolves alike give the same `resolveArray` results |
| `Registry.RegisterDependsOnResolution` | index.js:17-29 | two tables in which every token resolves alike give the same `register` outcome for every input |
| `Registry.FalsyRegistrationIsInvisible` | index.js:60-66 | after a registration whose factory returned a falsy value, every later `resolve` and `register` behaves as if that registration had not happened |
| `Injector.Injector.constructor` | index.js:7-8 | a new injector starts with an empty table whose keys are all tokens |
| `Injector.Injector.Register` | index.js:17-29 | on success, returns normally and stores the factory's result under `token`, leaving every other entry as it was; on failure, throws the guard's error and leaves the table unchanged; always keeps every key a token and keeps every truthy entry |

The guard helpers `assertTokenValid`, `assertTokenUnused`, `assertTokenUsed`,
`assertFactoryIsFunction` and `fail` (index.js:52-70) are the predicates
`IsToken` and `Registered` with the `Err` results that `Resolve` and
`RegisterOutcome` return when they fail.

## Left out

- The lodash predicates `isString`, `isSymbol`, `isArray`, `isObject` and `isFunction` (index.js:1-5) are not modelled. Their answers are the constructors of `Value`, `Args` and `Factory`.
- Error message text is not modelled, and neither is the `TypeError` from calling `toString` on `null` or `undefined` inside a guard (index.js:57-69). Either way the call throws at the same guard, and the model records only which guard that is.
- Prototype-chain lookups are not modelled. The table is a map, so a key such as `'toString'` does not find an inherited property. The model assumes no token collides with a property of `Object.prototype`.
- The mechanics of `Object.keys`, `Object.assign` and spread are not modelled. Only the resulting dictionary and argument list are kept. Symbol-keyed and non-enumerable properties of an args object are not part of `Named`, because `Object.keys` skips them too.
- Explicit `undefined` args are not modelled. JavaScript's default parameter turns them into `{}`, so a caller passes `Named([])` instead.
- Functions passed as args are not modelled on their own. `isObject` accepts them, and the model treats them as `Named` with their own enumerable keys.
- Factory internals are not modelled. A factory is a pure function from its arguments to a return or a throw. A factory that calls back into the injector while running (re-entrancy), or that has other side effects, is outside the model.
- JavaScript number details are not modelled: `NaN` (falsy), BigInt `0n` (falsy) and the host object `document.all` (falsy).
- Object identity of the fresh dictionary that `resolveDictionary` builds is not modelled. The model has no allocator, so two such dictionaries with the same contents are equal in the model.
- The tape test harness (test.js:1-3) is not part of this model. Its scenarios are replayed as client methods in `injector.dfy`.
- `String` and `Symbol` wrapper objects (`new String('a')`, `Object(sym)`) are not modelled as values of their own. lodash `isString` and `isSymbol` accept them (index.js:57), and they key the same entry as their primitive, so as tokens they are represented by `Text` and `Symbol`; an `Obj` token is always rejected.
- Sparse arrays are not modelled. `array.map` (index.js:45) skips a hole, so `resolveArray([, 'a'])` succeeds and the factory gets `undefined` in that position; `Positional` has no holes, and its nearest input `Positional([Undefined, Text("a")])` throws `InvalidToken`.
