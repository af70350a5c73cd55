/**
 * The command-line resolver: the `key=value` options after the two paths,
 * folded into a dictionary, and the flags and amount read from it.
 */
module Arguments {
  import opened Wrappers
  import opened Segments

  /** What the run is configured to do once the arguments are resolved. */
  datatype Config = Config(
    input: string,
    output: string,
    amount: real,
    mask: bool,
    invert: bool)

  /** The enhancement amount used when none is given or it does not parse. */
  const DefaultAmount: real := 10.0

  /** Swift's `dropFirst(n)`: the elements after the first `n`, or none. */
  function DropFirst(args: seq<string>, n: nat): (r: seq<string>)
    ensures |r| == if |args| <= n then 0 else |args| - n
    ensures forall i :: 0 <= i < |r| ==> r[i] == args[n + i]
  {
    if |args| <= n then [] else args[n..]
  }

  /**
   * The entry one token contributes: the first two `=`-separated pieces, if
   * there are two. Key and value are then non-empty and free of `=`.
   */
  function Entry(token: string): (r: Option<(string, string)>)
    ensures r.Some? ==> r.value.0 != [] && '=' !in r.value.0 && r.value.1 != [] && '=' !in r.value.1
  {
    var parts := Split(token, '=');
    if |parts| >= 2 then Some((parts[0], parts[1])) else None
  }

  /** True when `token` assigns a value to `key`. */
  predicate Sets(token: string, key: string) {
    Entry(token).Some? && Entry(token).value.0 == key
  }

  /**
   * The dictionary after one more token: the token's key, if it has one, is
   * added or overwritten; every other key keeps its value.
   */
  function Insert(params: map<string, string>, token: string): (r: map<string, string>)
    ensures r.Keys == params.Keys + (if Entry(token).Some? then {Entry(token).value.0} else {})
    ensures Entry(token).Some? ==> r[Entry(token).value.0] == Entry(token).value.1
    ensures forall k :: k in params && !Sets(token, k) ==> r[k] == params[k]
  {
    match Entry(token)
    case None => params
    case Some((k, v)) => params[k := v]
  }

  /**
   * The dictionary built from `tokens`, inserting them left to right. Every
   * key and every value in it is non-empty and free of `=`.
   */
  function Options(tokens: seq<string>): (r: map<string, string>)
    ensures forall k :: k in r ==> k != [] && '=' !in k && r[k] != [] && '=' !in r[k]
  {
    if tokens == [] then map[]
    else Insert(Options(tokens[..|tokens| - 1]), tokens[|tokens| - 1])
  }

  /**
   * The `reduce(into:)` over the arguments after the first three, which
   * updates the dictionary in place token by token.
   */
  method CollectOptions(args: seq<string>) returns (params: map<string, string>)
    ensures params == Options(DropFirst(args, 3))
  {
    var tokens := DropFirst(args, 3);
    params := map[];
    for i := 0 to |tokens|
      invariant params == Options(tokens[..i])
    {
      var parts := Split(tokens[i], '=');
      if |parts| >= 2 {
        var value := parts[1];
        params := params[parts[0] := value];
      }
      assert tokens[..i + 1][..i] == tokens[..i];
    }
    assert tokens[..|tokens|] == tokens;
  }

  /**
   * Swift's `Bool(String)`: only the exact strings `true` and `false` parse,
   * and what parses reads back as the same text.
   */
  function ParseBool(s: string): (r: Option<bool>)
    ensures r.Some? <==> s == "true" || s == "false"
    ensures r.Some? ==> BoolText(r.value) == s
  {
    if s == "true" then Some(true)
    else if s == "false" then Some(false)
    else None
  }

  /** Swift's `description` of a Boolean. */
  function BoolText(b: bool): string {
    if b then "true" else "false"
  }

  /** The value of `key`, or `default` when it is absent (`params[key] ?? default`). */
  function Lookup(params: map<string, string>, key: string, default: string): string {
    if key in params then params[key] else default
  }

  /**
   * `Bool(params[key] ?? "false") ?? false`: a flag is set exactly when its
   * value is the string `true`.
   */
  function Flag(params: map<string, string>, key: string): (r: bool)
    ensures r <==> key in params && params[key] == "true"
  {
    ParseBool(Lookup(params, key, "false")).GetOr(false)
  }

  /**
   * True of a `Double(String)` that reads the fallback text `"10.0"` as 10.0,
   * as Swift's does (or rejects it, which leads to the same amount).
   */
  predicate KeepsDefault(parse: string -> Option<real>) {
    parse("10.0") == None || parse("10.0") == Some(DefaultAmount)
  }

  /**
   * `Double(params["amount"] ?? "10.0") ?? 10.0`, with Swift's `Double(String)`
   * passed in as `parse`: the parsed value if it parses, and otherwise 10.0.
   */
  function Amount(params: map<string, string>, parse: string -> Option<real>): (r: real)
    ensures "amount" in params && parse(params["amount"]).Some? ==> r == parse(params["amount"]).value
    ensures "amount" in params && parse(params["amount"]).None? ==> r == DefaultAmount
    ensures "amount" !in params && KeepsDefault(parse) ==> r == DefaultAmount
  {
    parse(Lookup(params, "amount", "10.0")).GetOr(DefaultAmount)
  }

  /**
   * The configuration for a command line that passed the argument-count guard:
   * the two paths, and the flags and amount read from the options after them.
   */
  function Resolve(args: seq<string>, parse: string -> Option<real>): (r: Config)
    requires |args| >= 3
    ensures r.input == args[1] && r.output == args[2]
    ensures var params := Options(DropFirst(args, 3));
      && (r.mask <==> "mask" in params && params["mask"] == "true")
      && (r.invert <==> "invert" in params && params["invert"] == "true")
      && r.amount == Amount(params, parse)
      && (KeepsDefault(parse) && "amount" !in params ==> r.amount == DefaultAmount)
  {
    var params := Options(DropFirst(args, 3));
    Config(args[1], args[2], Amount(params, parse), Flag(params, "mask"), Flag(params, "invert"))
  }

  // ---------------------------------------------------------------------
  // The option dictionary

  /** A key is present exactly when some token assigns it. */
  lemma {:induction false} OptionsKeys(tokens: seq<string>, key: string)
    ensures key in Options(tokens) <==> exists i :: 0 <= i < |tokens| && Sets(tokens[i], key)
  {
    if tokens != [] {
      var n := |tokens| - 1;
      var front := tokens[..n];
      OptionsKeys(front, key);
      if exists i :: 0 <= i < |front| && Sets(front[i], key) {
        var i :| 0 <= i < |front| && Sets(front[i], key);
        assert tokens[i] == front[i];
      }
      if exists i :: 0 <= i < |tokens| && Sets(tokens[i], key) {
        var i :| 0 <= i < |tokens| && Sets(tokens[i], key);
        if i < n {
          assert front[i] == tokens[i];
        }
      }
    }
  }

  /** The value of a key is that of the last token that assigns it. */
  lemma {:induction false} OptionsLastWins(tokens: seq<string>, key: string, i: nat)
    requires i < |tokens| && Sets(tokens[i], key)
    requires forall j :: i < j < |tokens| ==> !Sets(tokens[j], key)
    ensures key in Options(tokens)
    ensures Options(tokens)[key] == Entry(tokens[i]).value.1
  {
    var n := |tokens| - 1;
    var front := tokens[..n];
    if i < n {
      forall j | i < j < |front| ensures !Sets(front[j], key) {
        assert front[j] == tokens[j];
      }
      OptionsLastWins(front, key, i);
      assert front[i] == tokens[i];
    }
  }

  /** Tokens that assign other keys leave a key's entry alone. */
  lemma {:induction false} OptionsOtherKeys(tokens: seq<string>, more: seq<string>, key: string)
    requires forall j :: 0 <= j < |more| ==> !Sets(more[j], key)
    ensures key in Options(tokens + more) <==> key in Options(tokens)
    ensures key in Options(tokens) ==> Options(tokens + more)[key] == Options(tokens)[key]
    decreases |more|
  {
    if more == [] {
      assert tokens + more == tokens;
    } else {
      var n := |more| - 1;
      assert (tokens + more)[..|tokens + more| - 1] == tokens + more[..n];
      assert (tokens + more)[|tokens + more| - 1] == more[n];
      assert !Sets(more[n], key);
      forall j | 0 <= j < |more[..n]| ensures !Sets(more[..n][j], key) {
        assert more[..n][j] == more[j];
      }
      OptionsOtherKeys(tokens, more[..n], key);
    }
  }

  /** A token without `=` adds nothing. */
  lemma EntryWithoutEquals()
    ensures Entry("flag") == None
  {
  }

  /** A token with an empty key adds nothing: the leading `=` gives no piece. */
  lemma EntryEmptyKey()
    ensures Entry("=x") == None
  {
  }

  /** Pieces beyond the second are ignored. */
  lemma EntryExtraPieces()
    ensures Entry("a=b=c") == Some(("a", "b"))
  {
    assert "a=b=c" == "a" + ['='] + "b=c";
    assert "b=c" == "b" + ['='] + "c";
    SplitAtSep("b", "c", '=');
    SplitOfRun("b", '=');
    SplitOfRun("c", '=');
    SplitAtSep("a", "b=c", '=');
    SplitOfRun("a", '=');
  }

  /** Repeated `=` between key and value is one separator. */
  lemma EntryRepeatedEquals()
    ensures Entry("amount==5") == Some(("amount", "5"))
  {
    assert "=5" == [] + ['='] + "5";
    SplitAtSep([], "5", '=');
    SplitOfRun("5", '=');
    assert "amount==5" == "amount" + ['='] + "=5";
    SplitAtSep("amount", "=5", '=');
    SplitOfRun("amount", '=');
  }

  // ---------------------------------------------------------------------
  // Flags and the amount

  /** `Bool(String)` reads back what a Boolean's description writes. */
  lemma ParseBoolRoundTrip(b: bool)
    ensures ParseBool(BoolText(b)) == Some(b)
  {
  }
}
