# Greeting lookup with fallback

This project models the one piece of logic in the configuration sample of an
ASP.NET Core meetup repository: the greeting service's `Greet(route)`. The
service holds the application configuration. For a route name it returns the
configured message for that route. If that message is null, it returns the
message configured under the reserved key `"default"`. That one may be null too.

The model lives in `greeting_service.dfy` (module `GreetingService`):

- The configuration is an ordered sequence of `(key, value)` pairs, as
  `IConfiguration.AsEnumerable()` yields it. Values are `Option<string>`, and
  `None` stands for a C# null.
- `FirstValue(cfg, key)` is `FirstOrDefault(r => r.Key == key).Value`. It gives the
  value of the earliest pair whose key equals `key` exactly. With no such pair it
  gives `None`, which matches the null `Value` of `default(KeyValuePair)`.
- `Greet(cfg, route)` performs the two lookups and the null-coalescing choice.
- The service's constructor only stores the configuration
  (src/configuration/GreetingService.cs:8-11). Here the configuration is
  passed to `Greet` as a parameter instead. `Greet` is a pure function, so it
  cannot change the configuration and always gives the same result for the
  same inputs.

Keys and the route are compared with exact, case-sensitive string equality, like
C#'s `==` on `string`. `FirstOrDefault` never throws, and neither can the model:
an absent result is an ordinary value.

Two behaviours of the code are worth stating directly:

- `Greet` accepts any `IConfiguration` and `FirstOrDefault` picks the earliest
  matching pair. The model therefore accepts repeated keys in the enumeration,
  and the earliest pair with a key decides (`GreetIgnoresLaterDuplicates`).
- A key that is present with a null value falls back to `"default"`, because
  the test is on the value, not on key presence (`GreetFallsBackOnNullValue`).

## Model

| member | source | states |
|---|---|---|
| `GreetingService.FirstValue` | src/configuration/GreetingService.cs:14-20 | With no pair keyed `key` the result is absent. Otherwise it is the value of the earliest pair keyed `key`, compared by exact string equality. |
| `GreetingService.Greet` | src/configuration/GreetingService.cs:12-23 | A present result is the value of some pair in the configuration whose key is either the route or `"default"`. |
| `GreetingService.FirstIndexExists` | src/configuration/GreetingService.cs:15 | If any pair has the key, there is an earliest such pair, so `FirstOrDefault`'s first match is well defined. |
| `GreetingService.FirstValueFound` | src/configuration/GreetingService.cs:14-16 | A present lookup result is the value of the earliest pair with that key. |
| `GreetingService.FirstValueIgnoresSuffix` | src/configuration/GreetingService.cs:15 | Once the key occurs, pairs appended after it never change the lookup (first match wins). |
| `GreetingService.FirstValueSkipsPrefix` | src/configuration/GreetingService.cs:15 | Pairs placed in front whose keys differ from the searched key never change the lookup. |
| `GreetingService.GreetRouteWins` | src/configuration/GreetingService.cs:14-22 | If the earliest pair keyed by the route has a non-null value, `Greet` returns exactly that value, whatever `"default"` holds. |
| `GreetingService.GreetFallsBackWhenAbsent` | src/configuration/GreetingService.cs:18-22 | If no pair is keyed by the route, `Greet` returns the value of the earliest `"default"` pair. |
| `GreetingService.GreetFallsBackOnNullValue` | src/configuration/GreetingService.cs:14-22 | If the route's earliest pair exists but its value is null, `Greet` still returns the earliest `"default"` value: the test is on the value, not on key presence. |
| `GreetingService.GreetAbsent` | src/configuration/GreetingService.cs:14-22 | The result is absent if and only if neither the route's earliest value nor the earliest `"default"` value is present. In particular, a configuration with neither key yields absent. |
| `GreetingService.GreetEmpty` | src/configuration/GreetingService.cs:14-22 | An empty configuration yields absent for every route, and nothing is thrown. |
| `GreetingService.GreetIgnoresLaterDuplicates` | src/configuration/GreetingService.cs:14-20 | When both the route and `"default"` already occur, appending more pairs, duplicates included, leaves the greeting unchanged. |
| `GreetingService.GreetRouteIgnoresSuffix` | src/configuration/GreetingService.cs:14-22 | When the route's earliest value is non-null, appending pairs leaves the greeting unchanged, even if `"default"` did not occur yet. |
| `GreetingService.FirstValueIgnoresOtherKeys` | src/configuration/GreetingService.cs:14-16 | Pairs whose key differs from the searched key, inserted at any position, never change the lookup. |
| `GreetingService.GreetIgnoresOtherKeys` | src/configuration/GreetingService.cs:14-22 | Pairs whose key is neither the route nor `"default"`, inserted at any position, never affect the greeting. This includes keys that differ only in case. |
| `GreetingService.GreetCaseSensitive` | src/configuration/GreetingService.cs:15 | The key `"Hello"` does not answer the route `"hello"`, so the `"default"` message is returned. |
| `GreetingService.GreetDefaultRoute` | src/configuration/GreetingService.cs:14-22 | `Greet` of the route `"default"` is the earliest `"default"` value, because both lookups select the same pair. |
| `GreetingService.GreetScenarios` | src/configuration/GreetingService.cs:12-23 | Worked cases: a configured route, a fallback to `"default"`, the route `"default"` itself, an empty configuration, and a configuration without `"default"`. |

## Left out

- Loading the configuration from `greetings.json` with reload on change (src/configuration/Startup.cs:27-34). This is file I/O and JSON parsing by the framework, and reload runs concurrently with requests. The configuration is an input here. `Greet` enumerates the configuration twice (src/configuration/GreetingService.cs:14 and :18), so a reload between the two reads could give the route lookup and the `"default"` lookup different file versions; the model gives both lookups the same configuration.
- How `IConfiguration.AsEnumerable()` flattens hierarchical JSON into keys, and the order it produces. That is library behaviour, so the pair order is an input of the model.
- HTTP route registration, route-value extraction and writing the response (src/configuration/Startup.cs:10-21, src/routing/Startup.cs, src/inject-json-dependencies/Startup.cs). This is framework code. The same applies to the `square/{number:int}` handler and its route constraint.
- Dependency-injection lifetimes and service registration, including the reflection-based registration from `appSettings.json`. This is runtime type lookup and container behaviour.
- A null `route` argument is not modelled, because the only caller passes a route value's `ToString()`.
- What the caller does with an absent greeting. It is passed to `WriteAsync`, which is framework behaviour.
