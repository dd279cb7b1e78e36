/** The query side of the burglary-alarm Bayesian network: parsing the events
    of a query ("Bt Af given Mt") into two assignments, and the enumeration
    of full assignments over B, E, A, J, M that `calculate_specified_probability`
    sums the joint probability over. The joint probability itself is a
    parameter. */
module Bnet {

  /** The outcome of parsing: a token shorter than two characters makes
      `event[1]` raise IndexError. */
  datatype Result<T> = Ok(value: T) | IndexError

  /** An assignment of truth values to event names. */
  type Events = map<char, bool>

  // ---------------------------------------------------------------------
  // `_parse_arguments`
  // ---------------------------------------------------------------------

  /** The tokens before the first "given" and the tokens after it; all
      tokens and none when there is no "given". */
  function SplitAtGiven(args: seq<string>): (r: (seq<string>, seq<string>))
    ensures "given" in args ==> r.0 + ["given"] + r.1 == args && "given" !in r.0
    ensures "given" !in args ==> r.0 == args && r.1 == []
  {
    if args == [] then ([], [])
    else if args[0] == "given" then ([], args[1..])
    else
      var rest := SplitAtGiven(args[1..]);
      assert args == [args[0]] + args[1..];
      ([args[0]] + rest.0, rest.1)
  }

  /** The dictionary comprehension over `tokens`, continued from `acc`: each
      token maps its first character to whether its second is 't'. */
  function EventsFrom(acc: Events, tokens: seq<string>): Result<Events>
    decreases |tokens|
  {
    if tokens == [] then Ok(acc)
    else if |tokens[0]| < 2 then IndexError
    else EventsFrom(acc[tokens[0][0] := tokens[0][1] == 't'], tokens[1..])
  }

  function ParseEvents(tokens: seq<string>): Result<Events> {
    EventsFrom(map[], tokens)
  }

  /** `_parse_arguments`: the events before the first "given" and the
      events after it. It fails exactly when a token other than the first
      "given" is shorter than two characters. On success c1 holds the events
      before that "given" and c2 those after it, each keyed by the first
      character, the last token for a key deciding its value. */
  function ParseArguments(args: seq<string>): (r: Result<(Events, Events)>)
    ensures r.Ok? <==> WellFormed(SplitAtGiven(args).0) && WellFormed(SplitAtGiven(args).1)
    ensures r.Ok? ==>
              && ParseEvents(SplitAtGiven(args).0) == Ok(r.value.0)
              && ParseEvents(SplitAtGiven(args).1) == Ok(r.value.1)
    ensures "given" !in args && r.Ok? ==> r.value.1 == map[]
  {
    var t1 := SplitAtGiven(args).0;
    var t2 := SplitAtGiven(args).1;
    EventsFromOk(map[], t1);
    EventsFromOk(map[], t2);
    match ParseEvents(t1)
    case IndexError => IndexError
    case Ok(c1) =>
      match ParseEvents(t2)
      case IndexError => IndexError
      case Ok(c2) => Ok((c1, c2))
  }

  /** Token j is the last token whose first character is its own. */
  predicate LastWithKey(tokens: seq<string>, j: int)
    requires 0 <= j < |tokens| && |tokens[j]| >= 1
  {
    forall j' :: j < j' < |tokens| && |tokens[j']| >= 1 ==> tokens[j'][0] != tokens[j][0]
  }

  /** Every token has the two characters `event[0]` and `event[1]` read. */
  predicate WellFormed(tokens: seq<string>) {
    forall i :: 0 <= i < |tokens| ==> |tokens[i]| >= 2
  }

  /** The comprehension succeeds exactly when every token has two characters. */
  lemma {:induction false} EventsFromOk(acc: Events, tokens: seq<string>)
    ensures EventsFrom(acc, tokens).Ok? <==> WellFormed(tokens)
    decreases |tokens|
  {
    if tokens != [] && |tokens[0]| >= 2 {
      EventsFromOk(acc[tokens[0][0] := tokens[0][1] == 't'], tokens[1..]);
      assert forall i :: 1 <= i < |tokens| ==> tokens[i] == tokens[1..][i - 1];
    }
  }

  /** The keys of the result are `acc`'s and the tokens' first characters. */
  lemma {:induction false} EventsFromKeys(acc: Events, tokens: seq<string>)
    requires WellFormed(tokens)
    ensures EventsFrom(acc, tokens).Ok?
    ensures forall k :: k in EventsFrom(acc, tokens).value <==>
              k in acc || exists i :: 0 <= i < |tokens| && tokens[i][0] == k
    decreases |tokens|
  {
    EventsFromOk(acc, tokens);
    if tokens != [] {
      var acc' := acc[tokens[0][0] := tokens[0][1] == 't'];
      var rest := tokens[1..];
      assert forall i :: 1 <= i < |tokens| ==> tokens[i] == rest[i - 1];
      EventsFromKeys(acc', rest);
      var m := EventsFrom(acc, tokens).value;
      forall k | k in m
        ensures k in acc || exists i :: 0 <= i < |tokens| && tokens[i][0] == k
      {
        if k !in acc && k != tokens[0][0] {
          var i :| 0 <= i < |rest| && rest[i][0] == k;
          assert tokens[i + 1][0] == k;
        }
      }
      forall k | k in acc || exists i :: 0 <= i < |tokens| && tokens[i][0] == k
        ensures k in m
      {
        if k !in acc && k != tokens[0][0] {
          var i :| 0 <= i < |tokens| && tokens[i][0] == k;
          assert rest[i - 1][0] == k;
        }
      }
    }
  }

  /** A key no token mentions keeps its value from `acc`. */
  lemma {:induction false} EventsFromKeeps(acc: Events, tokens: seq<string>, k: char)
    requires WellFormed(tokens) && k in acc
    requires forall i :: 0 <= i < |tokens| ==> tokens[i][0] != k
    ensures EventsFrom(acc, tokens).Ok? && k in EventsFrom(acc, tokens).value
    ensures EventsFrom(acc, tokens).value[k] == acc[k]
    decreases |tokens|
  {
    if tokens != [] {
      var rest := tokens[1..];
      assert forall i :: 1 <= i < |tokens| ==> tokens[i] == rest[i - 1];
      EventsFromKeeps(acc[tokens[0][0] := tokens[0][1] == 't'], rest, k);
    }
  }

  /** Each token's key ends up with the value of the last token with that key. */
  lemma {:induction false} EventsFromLastWins(acc: Events, tokens: seq<string>, j: nat)
    requires WellFormed(tokens) && j < |tokens| && LastWithKey(tokens, j)
    ensures EventsFrom(acc, tokens).Ok? && tokens[j][0] in EventsFrom(acc, tokens).value
    ensures EventsFrom(acc, tokens).value[tokens[j][0]] == (tokens[j][1] == 't')
    decreases |tokens|
  {
    var acc' := acc[tokens[0][0] := tokens[0][1] == 't'];
    var rest := tokens[1..];
    assert forall i :: 1 <= i < |tokens| ==> tokens[i] == rest[i - 1];
    if j == 0 {
      EventsFromKeeps(acc', rest, tokens[0][0]);
    } else {
      assert LastWithKey(rest, j - 1);
      EventsFromLastWins(acc', rest, j - 1);
    }
  }

  // ---------------------------------------------------------------------
  // The enumeration of `calculate_specified_probability`
  // ---------------------------------------------------------------------

  /** The network's variables, in the order "BEAJM". */
  const Variables: seq<char> := ['B', 'E', 'A', 'J', 'M']

  /** A full assignment of the five variables: the arguments of `compute_probability`. */
  datatype World = World(b: bool, e: bool, a: bool, j: bool, m: bool)

  function Get(w: World, k: char): bool
    requires k in Variables
  {
    if k == 'B' then w.b else if k == 'E' then w.e else if k == 'A' then w.a else if k == 'J' then w.j else w.m
  }

  /** `product([True, False], repeat=n)`: all n-tuples, True before False. */
  function Product(n: nat): seq<seq<bool>> {
    if n == 0 then [[]] else Prepend(true, Product(n - 1)) + Prepend(false, Product(n - 1))
  }

  function Prepend(b: bool, xs: seq<seq<bool>>): (r: seq<seq<bool>>)
    ensures |r| == |xs| && forall i :: 0 <= i < |xs| ==> r[i] == [b] + xs[i]
  {
    seq(|xs|, i requires 0 <= i < |xs| => [b] + xs[i])
  }

  function Pow2(n: nat): nat {
    if n == 0 then 1 else 2 * Pow2(n - 1)
  }

  /** There are 2^n tuples, each of length n. */
  lemma {:induction false} ProductShape(n: nat)
    ensures |Product(n)| == Pow2(n)
    ensures forall i :: 0 <= i < |Product(n)| ==> |Product(n)[i]| == n
  {
    if n > 0 {
      ProductShape(n - 1);
    }
  }

  /** No tuple appears twice. */
  lemma {:induction false} ProductDistinct(n: nat)
    ensures forall i, j :: 0 <= i < j < |Product(n)| ==> Product(n)[i] != Product(n)[j]
  {
    if n > 0 {
      ProductDistinct(n - 1);
      var rest := Product(n - 1);
      var p := Product(n);
      var h := |rest|;
      forall i, j | 0 <= i < j < |p|
        ensures p[i] != p[j]
      {
        if j < h || h <= i {
          var i', j' := if j < h then i else i - h, if j < h then j else j - h;
          assert p[i][1..] == rest[i'];
          assert p[j][1..] == rest[j'];
        } else {
          assert p[i][0] != p[j][0];
        }
      }
    }
  }

  /** Every n-tuple of booleans is one of them. */
  lemma {:induction false} ProductComplete(n: nat, t: seq<bool>) returns (k: nat)
    requires |t| == n
    ensures k < |Product(n)| && Product(n)[k] == t
  {
    if n == 0 {
      k := 0;
    } else {
      var k' := ProductComplete(n - 1, t[1..]);
      var h := |Product(n - 1)|;
      assert t == [t[0]] + t[1..];
      k := if t[0] then k' else h + k';
    }
  }

  /** `{k for k in "BEAJM" if k not in c}`, listed in "BEAJM" order. The
      order of the original set is not fixed; the lemmas below hold for any
      duplicate-free listing of the same variables. */
  function Unspecified(c: Events): seq<char> {
    Missing(Variables, c)
  }

  function Missing(vars: seq<char>, c: Events): seq<char> {
    if vars == [] then [] else (if vars[0] in c then [] else [vars[0]]) + Missing(vars[1..], c)
  }

  /** `vars` lists, once each, the variables `c` leaves unspecified. */
  ghost predicate ListsMissing(vars: seq<char>, c: Events) {
    && (forall i, j :: 0 <= i < j < |vars| ==> vars[i] != vars[j])
    && (forall k :: k in vars <==> k in Variables && k !in c)
  }

  lemma {:induction false} MissingSpec(vars: seq<char>, c: Events)
    requires forall i, j :: 0 <= i < j < |vars| ==> vars[i] != vars[j]
    ensures forall k :: k in Missing(vars, c) <==> k in vars && k !in c
    ensures forall i, j :: 0 <= i < j < |Missing(vars, c)| ==> Missing(vars, c)[i] != Missing(vars, c)[j]
  {
    if vars != [] {
      MissingSpec(vars[1..], c);
      assert forall k :: k in vars[1..] ==> k != vars[0];
    }
  }

  lemma UnspecifiedLists(c: Events)
    ensures ListsMissing(Unspecified(c), c)
  {
    MissingSpec(Variables, c);
  }

  /** `dict(zip(vars, combo))`. */
  function Zip(vars: seq<char>, combo: seq<bool>): Events
    requires |vars| == |combo|
  {
    if vars == [] then map[] else Zip(vars[..|vars| - 1], combo[..|combo| - 1])[vars[|vars| - 1] := combo[|combo| - 1]]
  }

  lemma {:induction false} ZipSpec(vars: seq<char>, combo: seq<bool>)
    requires |vars| == |combo|
    requires forall i, j :: 0 <= i < j < |vars| ==> vars[i] != vars[j]
    ensures forall k :: k in Zip(vars, combo) <==> k in vars
    ensures forall i :: 0 <= i < |vars| ==> Zip(vars, combo)[vars[i]] == combo[i]
  {
    if vars != [] {
      var n := |vars| - 1;
      ZipSpec(vars[..n], combo[..n]);
      assert forall k :: k in vars <==> k in vars[..n] || k == vars[n];
    }
  }

  /** The state built for one combination: `state = dict(zip(vars, combo))`
      followed by `state.update(c)`, so c wins on shared keys. */
  function StateOf(vars: seq<char>, combo: seq<bool>, c: Events): Events
    requires |vars| == |combo|
  {
    Zip(vars, combo) + c
  }

  /** The five values `compute_probability` is called with. */
  function Read(state: Events): World
    requires forall k :: k in Variables ==> k in state
  {
    World(state['B'], state['E'], state['A'], state['J'], state['M'])
  }

  /** The world read from the state of one combination. */
  function WorldOf(vars: seq<char>, combo: seq<bool>, c: Events): World
    requires ListsMissing(vars, c) && |combo| == |vars|
  {
    StateSpec(vars, combo, c);
    Read(StateOf(vars, combo, c))
  }

  /** The world `w` agrees with every specified variable of `c`. */
  ghost predicate Agrees(w: World, c: Events) {
    forall k :: k in Variables && k in c ==> Get(w, k) == c[k]
  }

  /** Every state built from a listing of the unspecified variables has all
      five variables, and the world it reads agrees with `c`. */
  lemma StateSpec(vars: seq<char>, combo: seq<bool>, c: Events)
    requires ListsMissing(vars, c) && |combo| == |vars|
    ensures forall k :: k in Variables ==> k in StateOf(vars, combo, c)
    ensures forall i :: 0 <= i < |vars| ==> Get(Read(StateOf(vars, combo, c)), vars[i]) == combo[i]
    ensures Agrees(Read(StateOf(vars, combo, c)), c)
  {
    var state := StateOf(vars, combo, c);
    ZipSpec(vars, combo);
    assert forall k :: k in Variables ==> k in state;
    forall i | 0 <= i < |vars|
      ensures Get(Read(state), vars[i]) == combo[i]
    {
      GetRead(state, vars[i]);
    }
    forall k | k in Variables && k in c
      ensures Get(Read(state), k) == c[k]
    {
      GetRead(state, k);
    }
  }

  lemma GetRead(state: Events, k: char)
    requires forall k :: k in Variables ==> k in state
    requires k in Variables
    ensures Get(Read(state), k) == state[k]
  {
  }

  /** The sum of `joint` over the worlds of the combinations, in order. */
  function SumWorlds(joint: World -> real, vars: seq<char>, combos: seq<seq<bool>>, c: Events): real
    requires ListsMissing(vars, c) && forall i :: 0 <= i < |combos| ==> |combos[i]| == |vars|
  {
    if combos == [] then 0.0
    else
      var last := combos[|combos| - 1];
      SumWorlds(joint, vars, combos[..|combos| - 1], c) + joint(WorldOf(vars, last, c))
  }

  /** What one of the three loops adds up: `joint` over every completion of `c`. */
  function Total(joint: World -> real, c: Events): real {
    UnspecifiedLists(c);
    ProductShape(|Unspecified(c)|);
    SumWorlds(joint, Unspecified(c), Product(|Unspecified(c)|), c)
  }

  /** The worlds enumerated for `c` are exactly the worlds that agree with
      `c`, each once: any listing `vars` of the unspecified variables gives
      2^|vars| combinations, distinct combinations give distinct worlds, and
      every agreeing world comes from some combination. */
  lemma CompletionsSpec(vars: seq<char>, c: Events)
    requires ListsMissing(vars, c)
    ensures |Product(|vars|)| == Pow2(|vars|)
    ensures forall i :: 0 <= i < |Product(|vars|)| ==> |Product(|vars|)[i]| == |vars|
    ensures forall i, j :: 0 <= i < j < |Product(|vars|)| ==>
              WorldOf(vars, Product(|vars|)[i], c) != WorldOf(vars, Product(|vars|)[j], c)
  {
    ProductShape(|vars|);
    ProductDistinct(|vars|);
    var p := Product(|vars|);
    forall i, j | 0 <= i < j < |p|
      ensures WorldOf(vars, p[i], c) != WorldOf(vars, p[j], c)
    {
      StateSpec(vars, p[i], c);
      StateSpec(vars, p[j], c);
      var d :| 0 <= d < |vars| && p[i][d] != p[j][d];
      assert Get(WorldOf(vars, p[i], c), vars[d]) != Get(WorldOf(vars, p[j], c), vars[d]);
    }
  }

  /** Every world that agrees with `c` is enumerated. */
  lemma CompletionsCover(vars: seq<char>, c: Events, w: World) returns (i: nat)
    requires ListsMissing(vars, c) && Agrees(w, c)
    ensures i < |Product(|vars|)| && |Product(|vars|)[i]| == |vars|
    ensures WorldOf(vars, Product(|vars|)[i], c) == w
  {
    var combo := seq(|vars|, d requires 0 <= d < |vars| => Get(w, vars[d]));
    i := ProductComplete(|vars|, combo);
    WorldOfCombo(vars, combo, c, w);
  }

  lemma WorldOfCombo(vars: seq<char>, combo: seq<bool>, c: Events, w: World)
    requires ListsMissing(vars, c) && Agrees(w, c)
    requires |combo| == |vars| && forall d :: 0 <= d < |vars| ==> combo[d] == Get(w, vars[d])
    ensures WorldOf(vars, combo, c) == w
  {
    StateSpec(vars, combo, c);
    var r := WorldOf(vars, combo, c);
    forall k | k in Variables
      ensures Get(r, k) == Get(w, k)
    {
      if k !in c {
        var d :| 0 <= d < |vars| && vars[d] == k;
      }
    }
    assert Get(r, 'B') == Get(w, 'B') && Get(r, 'E') == Get(w, 'E') && Get(r, 'A') == Get(w, 'A');
    assert Get(r, 'J') == Get(w, 'J') && Get(r, 'M') == Get(w, 'M');
  }

  /** The number of combinations is 2^k, k the number of the five variables
      `c` does not specify. */
  lemma CompletionCount(c: Events)
    ensures |Product(|Unspecified(c)|)| == Pow2(|set k | k in Variables && k !in c|)
  {
    UnspecifiedLists(c);
    ProductShape(|Unspecified(c)|);
    DistinctCard(Unspecified(c));
    assert (set k | k in Unspecified(c)) == (set k | k in Variables && k !in c);
  }

  lemma {:induction false} DistinctCard(xs: seq<char>)
    requires forall i, j :: 0 <= i < j < |xs| ==> xs[i] != xs[j]
    ensures |set k | k in xs| == |xs|
  {
    if xs != [] {
      DistinctCard(xs[1..]);
      assert (set k | k in xs) == (set k | k in xs[1..]) + {xs[0]};
      assert xs[0] !in xs[1..];
    }
  }

  /** In the numerator's states `{**c1, **c2}` decides each variable: c2 on
      the keys it has, c1 on the rest. */
  lemma EvidenceWins(vars: seq<char>, combo: seq<bool>, c1: Events, c2: Events)
    requires ListsMissing(vars, c1 + c2) && |combo| == |vars|
    ensures forall k :: k in Variables && k in c2 ==> Get(WorldOf(vars, combo, c1 + c2), k) == c2[k]
    ensures forall k :: k in Variables && k in c1 && k !in c2 ==> Get(WorldOf(vars, combo, c1 + c2), k) == c1[k]
  {
    StateSpec(vars, combo, c1 + c2);
  }

  /** Only the keys B, E, A, J, M of an assignment matter: other keys change
      neither the variables enumerated nor the sum. */
  lemma ExtraKeysIgnored(joint: World -> real, c: Events, c': Events)
    requires forall k :: k in Variables ==> (k in c <==> k in c') && (k in c ==> c[k] == c'[k])
    ensures Unspecified(c) == Unspecified(c')
    ensures Total(joint, c) == Total(joint, c')
  {
    MissingSame(Variables, c, c');
    UnspecifiedLists(c);
    UnspecifiedLists(c');
    ProductShape(|Unspecified(c)|);
    SumWorldsSame(joint, Unspecified(c), Product(|Unspecified(c)|), c, c');
  }

  lemma {:induction false} MissingSame(vars: seq<char>, c: Events, c': Events)
    requires forall k :: k in vars ==> (k in c <==> k in c')
    ensures Missing(vars, c) == Missing(vars, c')
  {
    if vars != [] {
      MissingSame(vars[1..], c, c');
    }
  }

  lemma {:induction false} SumWorldsSame(joint: World -> real, vars: seq<char>, combos: seq<seq<bool>>, c: Events, c': Events)
    requires ListsMissing(vars, c) && ListsMissing(vars, c')
    requires forall i :: 0 <= i < |combos| ==> |combos[i]| == |vars|
    requires forall k :: k in Variables ==> (k in c <==> k in c') && (k in c ==> c[k] == c'[k])
    ensures SumWorlds(joint, vars, combos, c) == SumWorlds(joint, vars, combos, c')
  {
    if combos != [] {
      var last := combos[|combos| - 1];
      SumWorldsSame(joint, vars, combos[..|combos| - 1], c, c');
      WorldOfSame(vars, last, c, c');
    }
  }

  lemma WorldOfSame(vars: seq<char>, combo: seq<bool>, c: Events, c': Events)
    requires ListsMissing(vars, c) && ListsMissing(vars, c') && |combo| == |vars|
    requires forall k :: k in Variables ==> (k in c <==> k in c') && (k in c ==> c[k] == c'[k])
    ensures WorldOf(vars, combo, c) == WorldOf(vars, combo, c')
  {
    StateSpec(vars, combo, c);
    StateSpec(vars, combo, c');
    var state, state' := StateOf(vars, combo, c), StateOf(vars, combo, c');
    assert forall k :: k in Variables ==> state[k] == state'[k];
  }

  // ---------------------------------------------------------------------
  // `calculate_specified_probability`
  // ---------------------------------------------------------------------

  /** One of the three loops: for each combination of the unspecified
      variables, build the state and add the joint probability of its world. */
  method SumCompletions(joint: World -> real, c: Events) returns (total: real)
    ensures total == Total(joint, c)
  {
    UnspecifiedLists(c);
    total := SumOverCombinations(joint, Unspecified(c), c);
  }

  /** The loop itself, over the listing `unspecifiedVars` of the variables
      `c` leaves open. */
  method SumOverCombinations(joint: World -> real, unspecifiedVars: seq<char>, c: Events) returns (total: real)
    requires ListsMissing(unspecifiedVars, c)
    ensures forall i :: 0 <= i < |Product(|unspecifiedVars|)| ==> |Product(|unspecifiedVars|)[i]| == |unspecifiedVars|
    ensures total == SumWorlds(joint, unspecifiedVars, Product(|unspecifiedVars|), c)
  {
    ProductShape(|unspecifiedVars|);
    var allCombinations := Product(|unspecifiedVars|);
    total := 0.0;
    for i := 0 to |allCombinations|
      invariant total == SumWorlds(joint, unspecifiedVars, allCombinations[..i], c)
    {
      SumWorldsStep(joint, unspecifiedVars, allCombinations, c, i);
      var state := StateOf(unspecifiedVars, allCombinations[i], c);
      StateSpec(unspecifiedVars, allCombinations[i], c);
      total := total + joint(Read(state));
    }
    assert allCombinations[..|allCombinations|] == allCombinations;
  }

  /** Adding the next combination's world to a prefix sum. */
  lemma SumWorldsStep(joint: World -> real, vars: seq<char>, combos: seq<seq<bool>>, c: Events, i: nat)
    requires ListsMissing(vars, c) && forall i :: 0 <= i < |combos| ==> |combos[i]| == |vars|
    requires i < |combos|
    ensures SumWorlds(joint, vars, combos[..i + 1], c) ==
            SumWorlds(joint, vars, combos[..i], c) + joint(WorldOf(vars, combos[i], c))
  {
    assert combos[..i + 1][..i] == combos[..i];
  }

  /** `calculate_specified_probability(network, c1, c2)`: with no evidence,
      the sum over the completions of c1; with evidence, the sum over the
      completions of `{**c1, **c2}` divided by the sum over the completions
      of c2, or 0 when that sum is 0. */
  method CalculateSpecifiedProbability(joint: World -> real, c1: Events, c2: Events) returns (p: real)
    ensures |c2| == 0 ==> p == Total(joint, c1)
    ensures |c2| != 0 && Total(joint, c2) == 0.0 ==> p == 0.0
    ensures |c2| != 0 && Total(joint, c2) != 0.0 ==> p == Total(joint, c1 + c2) / Total(joint, c2)
  {
    if |c2| == 0 {
      p := SumCompletions(joint, c1);
      return;
    }
    var jointProb := SumCompletions(joint, c1 + c2);
    var c2Prob := SumCompletions(joint, c2);
    p := if c2Prob != 0.0 then jointProb / c2Prob else 0.0;
  }
}
