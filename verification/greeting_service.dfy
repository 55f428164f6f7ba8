/**
 * The greeting lookup of the configuration sample: a route name is looked up in
 * the flattened configuration, falling back to the entry keyed "default".
 *
 * The configuration is what `IConfiguration.AsEnumerable()` yields: an ordered
 * sequence of key/value pairs whose keys are strings and whose values may be
 * null. A null value (and the null `Value` of the `default(KeyValuePair)` that
 * `FirstOrDefault` returns on no match) is `None`.
 */
module GreetingService {

  datatype Option<+T> = None | Some(value: T)

  type Pair = (string, Option<string>)

  /** The configuration as the service enumerates it; order is significant. */
  type Configuration = seq<Pair>

  /** The fallback key consulted when the route has no non-null value. */
  const DefaultKey: string := "default"

  /** Some pair of `cfg` has key `key` (exact, case-sensitive string equality). */
  ghost predicate HasKey(cfg: Configuration, key: string)
  {
    exists i :: 0 <= i < |cfg| && cfg[i].0 == key
  }

  /** `i` is the position of the earliest pair of `cfg` whose key is `key`. */
  ghost predicate IsFirst(cfg: Configuration, key: string, i: int)
  {
    0 <= i < |cfg| && cfg[i].0 == key &&
    forall j :: 0 <= j < i ==> cfg[j].0 != key
  }

  /**
   * `FirstOrDefault(r => r.Key == key).Value`: the value of the earliest pair
   * keyed `key`, or `None` when no pair has that key.
   */
  function FirstValue(cfg: Configuration, key: string): (r: Option<string>)
    ensures !HasKey(cfg, key) ==> r == None
    ensures forall i :: IsFirst(cfg, key, i) ==> r == cfg[i].1
  {
    if |cfg| == 0 then None
    else if cfg[0].0 == key then cfg[0].1
    else
      var r := FirstValue(cfg[1..], key);
      assert forall i :: IsFirst(cfg, key, i) ==> IsFirst(cfg[1..], key, i - 1);
      assert HasKey(cfg[1..], key) ==> HasKey(cfg, key) by {
        if HasKey(cfg[1..], key) {
          var k :| 0 <= k < |cfg[1..]| && cfg[1..][k].0 == key;
          assert cfg[k + 1].0 == key;
        }
      }
      r
  }

  /**
   * `Greet(route)`: the route's value when it is non-null, otherwise the value
   * of the "default" pair, which may itself be absent. A present result is
   * always the value of a pair keyed either `route` or "default".
   */
  function Greet(cfg: Configuration, route: string): (r: Option<string>)
    ensures r.Some? ==>
      exists i :: 0 <= i < |cfg| && (cfg[i].0 == route || cfg[i].0 == DefaultKey) && cfg[i].1 == r
  {
    var routeMessage := FirstValue(cfg, route);
    var defaultMessage := FirstValue(cfg, DefaultKey);
    FirstValueFound(cfg, route);
    FirstValueFound(cfg, DefaultKey);
    if routeMessage.Some? then routeMessage else defaultMessage
  }

  /** Whenever some pair has key `key`, an earliest such pair exists. */
  lemma {:induction false} FirstIndexExists(cfg: Configuration, key: string)
    requires HasKey(cfg, key)
    ensures exists i :: IsFirst(cfg, key, i)
  {
    if cfg[0].0 == key {
      assert IsFirst(cfg, key, 0);
    } else {
      var k :| 0 <= k < |cfg| && cfg[k].0 == key;
      assert cfg[1..][k - 1].0 == key;
      FirstIndexExists(cfg[1..], key);
      var i :| IsFirst(cfg[1..], key, i);
      assert IsFirst(cfg, key, i + 1);
    }
  }

  /** A present lookup result is the value of the earliest pair with that key. */
  lemma FirstValueFound(cfg: Configuration, key: string)
    ensures FirstValue(cfg, key).Some? ==>
      exists i :: IsFirst(cfg, key, i) && cfg[i].1 == FirstValue(cfg, key)
  {
    if FirstValue(cfg, key).Some? {
      FirstIndexExists(cfg, key);
    }
  }

  /** Pairs placed after an existing match never change the lookup. */
  lemma {:induction false} FirstValueIgnoresSuffix(cfg: Configuration, rest: Configuration, key: string)
    requires HasKey(cfg, key)
    ensures FirstValue(cfg + rest, key) == FirstValue(cfg, key)
  {
    FirstIndexExists(cfg, key);
    var i :| IsFirst(cfg, key, i);
    assert IsFirst(cfg + rest, key, i) by {
      forall j | 0 <= j < i ensures (cfg + rest)[j].0 != key {
        assert (cfg + rest)[j] == cfg[j];
      }
    }
  }

  /** Pairs placed before the configuration with other keys never change the lookup. */
  lemma {:induction false} FirstValueSkipsPrefix(pre: Configuration, cfg: Configuration, key: string)
    requires forall j :: 0 <= j < |pre| ==> pre[j].0 != key
    ensures FirstValue(pre + cfg, key) == FirstValue(cfg, key)
  {
    if pre == [] {
      assert pre + cfg == cfg;
    } else {
      assert (pre + cfg)[0] == pre[0];
      assert (pre + cfg)[1..] == pre[1..] + cfg;
      FirstValueSkipsPrefix(pre[1..], cfg, key);
    }
  }

  /** The earliest pair keyed `route` with a non-null value decides, "default" or not. */
  lemma GreetRouteWins(cfg: Configuration, route: string, i: int)
    requires IsFirst(cfg, route, i) && cfg[i].1.Some?
    ensures Greet(cfg, route) == cfg[i].1
  {
  }

  /** With no pair keyed `route`, the earliest "default" pair decides. */
  lemma GreetFallsBackWhenAbsent(cfg: Configuration, route: string, d: int)
    requires !HasKey(cfg, route) && IsFirst(cfg, DefaultKey, d)
    ensures Greet(cfg, route) == cfg[d].1
  {
  }

  /** A present key with a null value also falls back: the test is on the value, not the key. */
  lemma GreetFallsBackOnNullValue(cfg: Configuration, route: string, i: int, d: int)
    requires IsFirst(cfg, route, i) && cfg[i].1 == None
    requires IsFirst(cfg, DefaultKey, d)
    ensures Greet(cfg, route) == cfg[d].1
  {
  }

  /**
   * The result is absent exactly when the route has no non-null earliest value
   * and "default" has none either; in particular neither key present means absent.
   */
  lemma GreetAbsent(cfg: Configuration, route: string)
    ensures Greet(cfg, route) == None <==>
      (forall i :: IsFirst(cfg, route, i) ==> cfg[i].1 == None) &&
      (forall d :: IsFirst(cfg, DefaultKey, d) ==> cfg[d].1 == None)
    ensures !HasKey(cfg, route) && !HasKey(cfg, DefaultKey) ==> Greet(cfg, route) == None
  {
    FirstValueFound(cfg, route);
    FirstValueFound(cfg, DefaultKey);
  }

  /** An empty configuration greets nobody, and nothing fails. */
  lemma GreetEmpty(route: string)
    ensures Greet([], route) == None
  {
  }

  /**
   * Once both lookups are decided by `cfg`, appending more pairs (duplicates
   * included) leaves the greeting unchanged: the earliest match wins.
   */
  lemma GreetIgnoresLaterDuplicates(cfg: Configuration, rest: Configuration, route: string)
    requires HasKey(cfg, route) && HasKey(cfg, DefaultKey)
    ensures Greet(cfg + rest, route) == Greet(cfg, route)
  {
    FirstValueIgnoresSuffix(cfg, rest, route);
    FirstValueIgnoresSuffix(cfg, rest, DefaultKey);
  }

  /** A route whose earliest value is non-null ignores everything appended after it. */
  lemma GreetRouteIgnoresSuffix(cfg: Configuration, rest: Configuration, route: string)
    requires FirstValue(cfg, route).Some?
    ensures Greet(cfg + rest, route) == Greet(cfg, route)
  {
    FirstValueIgnoresSuffix(cfg, rest, route);
  }

  /** Pairs without the searched key, inserted anywhere, never change the lookup. */
  lemma FirstValueIgnoresOtherKeys(a: Configuration, mid: Configuration, b: Configuration, key: string)
    requires forall j :: 0 <= j < |mid| ==> mid[j].0 != key
    ensures FirstValue(a + mid + b, key) == FirstValue(a + b, key)
  {
    assert a + mid + b == a + (mid + b);
    if HasKey(a, key) {
      FirstValueIgnoresSuffix(a, mid + b, key);
      FirstValueIgnoresSuffix(a, b, key);
    } else {
      FirstValueSkipsPrefix(a, mid + b, key);
      FirstValueSkipsPrefix(mid, b, key);
      FirstValueSkipsPrefix(a, b, key);
    }
  }

  /**
   * Pairs whose key is neither the route nor "default" (for instance the same
   * word in another case), inserted at any position, play no part in the greeting.
   */
  lemma GreetIgnoresOtherKeys(a: Configuration, mid: Configuration, b: Configuration, route: string)
    requires forall j :: 0 <= j < |mid| ==> mid[j].0 != route && mid[j].0 != DefaultKey
    ensures Greet(a + mid + b, route) == Greet(a + b, route)
  {
    FirstValueIgnoresOtherKeys(a, mid, b, route);
    FirstValueIgnoresOtherKeys(a, mid, b, DefaultKey);
  }

  /** Key comparison is case-sensitive: "Hello" does not answer the route "hello". */
  lemma GreetCaseSensitive()
    ensures Greet([("Hello", Some("Hi there!")), (DefaultKey, Some("Welcome!"))], "hello") == Some("Welcome!")
  {
    var cfg: Configuration := [("Hello", Some("Hi there!")), (DefaultKey, Some("Welcome!"))];
    assert "Hello" != "hello" by { assert "Hello"[0] != "hello"[0]; }
    assert DefaultKey != "hello" by { assert DefaultKey[0] != "hello"[0]; }
    assert !HasKey(cfg, "hello");
    assert IsFirst(cfg, DefaultKey, 1) by { assert "Hello" != DefaultKey by { assert "Hello"[0] != DefaultKey[0]; } }
    GreetFallsBackWhenAbsent(cfg, "hello", 1);
  }

  /** Greeting the route "default" gives the earliest "default" value. */
  lemma GreetDefaultRoute(cfg: Configuration, d: int)
    requires IsFirst(cfg, DefaultKey, d)
    ensures Greet(cfg, DefaultKey) == cfg[d].1
  {
  }

  /** Worked cases: a configured greeting, a fallback, the default route, and two absences. */
  lemma GreetScenarios()
    ensures Greet([("hello", Some("Hi there!")), (DefaultKey, Some("Welcome!"))], "hello") == Some("Hi there!")
    ensures Greet([("hello", Some("Hi there!")), (DefaultKey, Some("Welcome!"))], "goodbye") == Some("Welcome!")
    ensures Greet([(DefaultKey, Some("Welcome!"))], DefaultKey) == Some("Welcome!")
    ensures Greet([], "anything") == None
    ensures Greet([("hello", Some("Hi there!"))], "goodbye") == None
  {
    assert "hello" != "goodbye" by { assert "hello"[0] != "goodbye"[0]; }
    assert "hello" != DefaultKey by { assert "hello"[0] != DefaultKey[0]; }
    assert "goodbye" != DefaultKey by { assert "goodbye"[0] != DefaultKey[0]; }
    var cfg: Configuration := [("hello", Some("Hi there!")), (DefaultKey, Some("Welcome!"))];
    assert !HasKey(cfg, "goodbye");
    assert IsFirst(cfg, DefaultKey, 1);
    GreetFallsBackWhenAbsent(cfg, "goodbye", 1);
  }
}
