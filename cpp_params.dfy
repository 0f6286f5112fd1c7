// The C++ server's command-line parser `ArgParse` (includes/params.hpp,
// sources/params.cpp): registered positional names, `--name value` long
// parameters and `-short value` aliases, collected into a map in which the
// first value given for a name wins.
module CppParams {
  import opened Wrappers
  import opened Strings

  datatype ParseError = UnknownParameter(arg: string) | MissingValue(arg: string) | TooManyArguments

  /** The text of the `std::invalid_argument` thrown for each error. */
  function Message(e: ParseError): string {
    match e
    case UnknownParameter(arg) => "Unknown parameter '" + arg + "'"
    case MissingValue(arg) => "Missing value after '" + arg + "'"
    case TooManyArguments => "Too many arguments given"
  }

  /** `result.insert({key, value})`: a name already present keeps its
      value. */
  function Insert(m: map<string, string>, kv: (string, string)): (r: map<string, string>)
    ensures kv.0 in r && r.Keys == m.Keys + {kv.0}
    ensures kv.0 in m ==> r == m
  {
    if kv.0 in m then m else m[kv.0 := kv.1]
  }

  /** The map built by inserting the pairs in order. */
  function Collect(pairs: seq<(string, string)>): map<string, string> {
    if pairs == [] then map[] else Insert(Collect(pairs[..|pairs| - 1]), pairs[|pairs| - 1])
  }

  /** The names bound are exactly the names of the pairs. */
  lemma {:induction false} CollectKeys(pairs: seq<(string, string)>)
    ensures Collect(pairs).Keys == set i | 0 <= i < |pairs| :: pairs[i].0
    decreases |pairs|
  {
    if pairs != [] {
      var front := pairs[..|pairs| - 1];
      CollectKeys(front);
      assert (set i | 0 <= i < |pairs| :: pairs[i].0)
        == (set i | 0 <= i < |front| :: front[i].0) + {pairs[|pairs| - 1].0};
    }
  }

  /** A name is bound to the value of its first pair. */
  lemma {:induction false} CollectFirst(pairs: seq<(string, string)>, i: nat)
    requires i < |pairs|
    requires forall j :: 0 <= j < i ==> pairs[j].0 != pairs[i].0
    ensures pairs[i].0 in Collect(pairs) && Collect(pairs)[pairs[i].0] == pairs[i].1
    decreases |pairs|
  {
    var front := pairs[..|pairs| - 1];
    if i < |pairs| - 1 {
      CollectFirst(front, i);
    } else {
      CollectKeys(front);
    }
  }

  /** Two neighbouring pairs for different names may be given in either
      order. */
  lemma {:induction false} CollectSwap(a: seq<(string, string)>, x: (string, string), y: (string, string), b: seq<(string, string)>)
    requires x.0 != y.0
    ensures Collect(a + [x, y] + b) == Collect(a + [y, x] + b)
    decreases |b|
  {
    if b == [] {
      assert a + [x, y] + b == a + [x] + [y];
      assert a + [y, x] + b == a + [y] + [x];
      SwapLast(a, x, y);
    } else {
      var front, last := b[..|b| - 1], b[|b| - 1];
      CollectSwap(a, x, y, front);
      assert a + [x, y] + b == (a + [x, y] + front) + [last];
      assert a + [y, x] + b == (a + [y, x] + front) + [last];
      Snoc(a + [x, y] + front, last);
      Snoc(a + [y, x] + front, last);
    }
  }

  lemma SwapLast(a: seq<(string, string)>, x: (string, string), y: (string, string))
    requires x.0 != y.0
    ensures Collect(a + [x] + [y]) == Collect(a + [y] + [x])
  {
    Snoc(a, x);
    Snoc(a + [x], y);
    Snoc(a, y);
    Snoc(a + [y], x);
  }

  lemma Snoc(pairs: seq<(string, string)>, x: (string, string))
    ensures Collect(pairs + [x]) == Insert(Collect(pairs), x)
  {
    assert (pairs + [x])[..|pairs|] == pairs;
  }

  /** The positional pairs: the i-th value goes to the i-th name. */
  function Zip(names: seq<string>, values: seq<string>): (r: seq<(string, string)>)
    requires |values| <= |names|
    ensures |r| == |values| && forall i :: 0 <= i < |values| ==> r[i] == (names[i], values[i])
  {
    if values == [] then [] else Zip(names[..|values| - 1], values[..|values| - 1]) + [(names[|values| - 1], values[|values| - 1])]
  }

  /** A successful scan with `pairs` already produced in front of it. */
  function After(pairs: seq<(string, string)>, r: Result<seq<(string, string)>, ParseError>): Result<seq<(string, string)>, ParseError> {
    if r.Ok? then Ok(pairs + r.value) else r
  }

  /** One pair more produced by the loop of `parseArgs`. */
  lemma Step(pairs: seq<(string, string)>, x: (string, string), r: Result<seq<(string, string)>, ParseError>)
    ensures After(pairs, After([x], r)) == After(pairs + [x], r)
    ensures Collect(pairs + [x]) == Insert(Collect(pairs), x)
    ensures After([], r) == r
  {
    assert (pairs + [x])[..|pairs|] == pairs;
    if r.Ok? {
      assert pairs + ([x] + r.value) == pairs + [x] + r.value;
      assert [] + r.value == r.value;
    }
  }

  class ArgParse {
    /** The tokens of the mixed test: a long flag, a positional value and a
        short alias, each with its value. */
    lemma ScanMixed(input: seq<string>)
      requires Valid() && args == ["cheese"] && params == {"test", "test2"}
      requires shortParams == map["t2" := "test2"]
      requires input == ["--test", "bar", "yeet", "-t2", "foo"]
      ensures Scan(input, 0) == Ok([("test", "bar"), ("cheese", "yeet"), ("test2", "foo")])
    {
      assert input[0][..2] == "--" && input[0][2..] == "test";
      assert input[2][..1] == "y" && input[3][..1] == "-" && input[3][..2] == "-t" && input[3][1..] == "t2";
      assert input[3..][2..] == [] && input[2..][1..] == input[3..];
      assert Scan([], 1) == Ok([]);
      assert [("test2", "foo")] + [] == [("test2", "foo")];
      var s3 := Scan(input[3..], 1);
      assert s3 == Ok([("test2", "foo")]);
      var s2 := Scan(input[2..], 0);
      assert s2 == After([("cheese", "yeet")], s3);
      assert [("cheese", "yeet")] + [("test2", "foo")] == [("cheese", "yeet"), ("test2", "foo")];
      assert Scan(input, 0) == After([("test", "bar")], s2);
      assert [("test", "bar")] + [("cheese", "yeet"), ("test2", "foo")] == [("test", "bar"), ("cheese", "yeet"), ("test2", "foo")];
    }

    /** The positional names, in the order they bind. */
    var args: seq<string>
    /** The long parameter names. */
    var params: set<string>
    /** Short name to long name. */
    var shortParams: map<string, string>

    /** Every short name stands for a registered long name. */
    predicate Valid()
      reads this
    {
      forall s :: s in shortParams ==> shortParams[s] in params
    }

    constructor ()
      ensures Valid() && args == [] && params == {} && shortParams == map[]
    {
      args, params, shortParams := [], {}, map[];
    }

    /** `addArg`: one more positional name. */
    method AddArg(arg: string)
      modifies this
      ensures args == old(args) + [arg] && params == old(params) && shortParams == old(shortParams)
    {
      args := args + [arg];
    }

    /** `addParam(param)`. */
    method AddParam(param: string)
      requires Valid()
      modifies this
      ensures Valid()
      ensures params == old(params) + {param} && args == old(args) && shortParams == old(shortParams)
    {
      params := params + {param};
    }

    /** `addParam(param, short_param)`: a short name already taken keeps
        its long name. */
    method AddShortParam(param: string, shortParam: string)
      requires Valid()
      modifies this
      ensures Valid()
      ensures params == old(params) + {param} && args == old(args)
      ensures shortParams == if shortParam in old(shortParams) then old(shortParams)
        else old(shortParams)[shortParam := param]
    {
      AddParam(param);
      if shortParam !in shortParams {
        shortParams := shortParams[shortParam := param];
      }
    }

    /** The pairs `parseArgs` inserts for the tokens `rest` when `pos`
        positional names are already used, or the error it throws. */
    function Scan(rest: seq<string>, pos: nat): (r: Result<seq<(string, string)>, ParseError>)
      reads this
      requires Valid()
      ensures r.Ok? ==> |r.value| <= |rest|
      ensures r.Ok? ==> forall i :: 0 <= i < |r.value| ==> r.value[i].0 in params || r.value[i].0 in args
      decreases |rest|
    {
      if rest == [] then Ok([])
      else
        var arg := rest[0];
        if StartsWith(arg, "--") then
          if arg[2..] !in params then Err(UnknownParameter(arg))
          else if |rest| == 1 then Err(MissingValue(arg))
          else After([(arg[2..], rest[1])], Scan(rest[2..], pos))
        else if StartsWith(arg, "-") then
          if arg[1..] !in shortParams then Err(UnknownParameter(arg))
          else if |rest| == 1 then Err(MissingValue(arg))
          else After([(shortParams[arg[1..]], rest[1])], Scan(rest[2..], pos))
        else if pos >= |args| then Err(TooManyArguments)
        else After([(args[pos], arg)], Scan(rest[1..], pos + 1))
    }

    /** What `parseArgs` returns, or the error it throws. */
    function Parse(input: seq<string>): Result<map<string, string>, ParseError>
      reads this
      requires Valid()
    {
      var r := Scan(input, 0);
      if r.Ok? then Ok(Collect(r.value)) else Err(r.error)
    }

    /** `parseArgs(vector<string>)`: the tokens are taken from the front;
        a flag consumes the next token as its value, anything else binds to
        the next positional name. */
    method ParseArgs(input: seq<string>) returns (r: Result<map<string, string>, ParseError>)
      requires Valid()
      ensures r == Parse(input)
    {
      var result: map<string, string> := map[];
      ghost var pairs: seq<(string, string)> := [];
      var argPos := 0;
      var rest := input;
      Step([], ("", ""), Scan(input, 0));
      while rest != []
        invariant Scan(input, 0) == After(pairs, Scan(rest, argPos))
        invariant result == Collect(pairs)
        decreases |rest|
      {
        var arg := rest[0];
        if StartsWith(arg, "--") {
          var tag := arg[2..];
          if tag !in params {
            return Err(UnknownParameter(arg));
          }
          if |rest| == 1 {
            return Err(MissingValue(arg));
          }
          assert Scan(rest, argPos) == After([(tag, rest[1])], Scan(rest[2..], argPos));
          Step(pairs, (tag, rest[1]), Scan(rest[2..], argPos));
          result := Insert(result, (tag, rest[1]));
          pairs := pairs + [(tag, rest[1])];
          rest := rest[2..];
          continue;
        }
        if StartsWith(arg, "-") {
          var tag := arg[1..];
          if tag !in shortParams {
            return Err(UnknownParameter(arg));
          }
          if |rest| == 1 {
            return Err(MissingValue(arg));
          }
          var name := shortParams[tag];
          assert Scan(rest, argPos) == After([(name, rest[1])], Scan(rest[2..], argPos));
          Step(pairs, (name, rest[1]), Scan(rest[2..], argPos));
          result := Insert(result, (name, rest[1]));
          pairs := pairs + [(name, rest[1])];
          rest := rest[2..];
          continue;
        }
        if argPos >= |args| {
          return Err(TooManyArguments);
        }
        var tag := args[argPos];
        assert Scan(rest, argPos) == After([(tag, arg)], Scan(rest[1..], argPos + 1));
        Step(pairs, (tag, arg), Scan(rest[1..], argPos + 1));
        argPos := argPos + 1;
        result := Insert(result, (tag, arg));
        pairs := pairs + [(tag, arg)];
        rest := rest[1..];
      }
      assert pairs + [] == pairs;
      r := Ok(result);
    }

    /** `parseArgs(const char **args, int nargs)`: the first `nargs`
        strings are copied into a vector first. */
    method ParseArgv(argv: seq<string>, nargs: nat) returns (r: Result<map<string, string>, ParseError>)
      requires Valid() && nargs <= |argv|
      ensures r == Parse(argv[..nargs])
    {
      var a: seq<string> := [];
      var i := 0;
      while i < nargs
        invariant i <= nargs && a == argv[..i]
      {
        a := a + [argv[i]];
        i := i + 1;
      }
      r := ParseArgs(a);
    }

    /** Without flags the values bind to the positional names in order,
        and one value more than there are names left is an error. */
    lemma {:induction false} PositionalOnly(input: seq<string>, pos: nat)
      requires Valid() && pos <= |args|
      requires forall i :: 0 <= i < |input| ==> !StartsWith(input[i], "-")
      ensures |input| <= |args| - pos ==> Scan(input, pos) == Ok(Zip(args[pos..pos + |input|], input))
      ensures |input| > |args| - pos ==> Scan(input, pos) == Err(TooManyArguments)
      decreases |input|
    {
      if input != [] {
        assert !StartsWith(input[0], "--");
        if pos < |args| {
          PositionalOnly(input[1..], pos + 1);
          if |input| <= |args| - pos {
            var z := Zip(args[pos..pos + |input|], input);
            assert z == [(args[pos], input[0])] + Zip(args[pos + 1..pos + 1 + |input| - 1], input[1..]);
          }
        } else {
          assert Scan(input, pos) == Err(TooManyArguments);
        }
      }
    }

    /** A long flag and its value may be given before or after a positional
        value: what the rest of the arguments bind is the same unless the flag
        names that positional name, and so is the error. */
    lemma FlagMovesFreely(value: string, flag: string, flagValue: string, rest: seq<string>, pos: nat)
      requires Valid() && pos < |args|
      requires !StartsWith(value, "-") && StartsWith(flag, "--") && flag[2..] in params
      requires flag[2..] != args[pos]
      ensures var a, b := Scan([value, flag, flagValue] + rest, pos), Scan([flag, flagValue, value] + rest, pos);
        a.Ok? == b.Ok? && (a.Ok? ==> Collect(a.value) == Collect(b.value)) && (a.Err? ==> a == b)
    {
      var x := (args[pos], value);
      var y := (flag[2..], flagValue);
      assert ([value, flag, flagValue] + rest)[1..] == [flag, flagValue] + rest;
      assert ([flag, flagValue] + rest)[2..] == rest;
      assert ([flag, flagValue, value] + rest)[2..] == [value] + rest;
      assert ([value] + rest)[1..] == rest;
      assert !StartsWith(value, "--");
      var s := Scan(rest, pos + 1);
      assert Scan([flag, flagValue] + rest, pos + 1) == After([y], s);
      assert Scan([value, flag, flagValue] + rest, pos) == After([x], After([y], s));
      assert Scan([value] + rest, pos) == After([x], s);
      assert Scan([flag, flagValue, value] + rest, pos) == After([y], After([x], s));
      if s.Ok? {
        assert [x] + ([y] + s.value) == [] + [x, y] + s.value;
        assert [y] + ([x] + s.value) == [] + [y, x] + s.value;
        CollectSwap([], x, y, s.value);
      }
    }

    /** A flag that is the last token has no value. */
    lemma FlagWithoutValue(before: seq<string>, flag: string)
      requires Valid() && StartsWith(flag, "-")
      requires if StartsWith(flag, "--") then flag[2..] in params else flag[1..] in shortParams
      requires forall i :: 0 <= i < |before| ==> StartsWith(before[i], "-")
      requires |before| % 2 == 0
      requires forall i :: 0 <= i < |before| / 2 ==> Known(before[2 * i])
      ensures Parse(before + [flag]) == Err(MissingValue(flag))
    {
      FlagsThenLast(before, flag, 0);
    }

    predicate Known(flag: string)
      reads this
    {
      (StartsWith(flag, "--") && flag[2..] in params)
      || (!StartsWith(flag, "--") && StartsWith(flag, "-") && flag[1..] in shortParams)
    }

    lemma {:induction false} FlagsThenLast(before: seq<string>, flag: string, pos: nat)
      requires Valid() && Known(flag)
      requires forall i :: 0 <= i < |before| ==> StartsWith(before[i], "-")
      requires |before| % 2 == 0
      requires forall i :: 0 <= i < |before| / 2 ==> Known(before[2 * i])
      ensures Scan(before + [flag], pos) == Err(MissingValue(flag))
      decreases |before|
    {
      if before != [] {
        assert Known(before[2 * 0]);
        var tail := before[2..];
        assert (before + [flag])[2..] == tail + [flag];
        forall i | 0 <= i < |tail| / 2 ensures Known(tail[2 * i]) {
          assert tail[2 * i] == before[2 * (i + 1)];
        }
        FlagsThenLast(tail, flag, pos);
      }
    }
  }

  /** Registered names bound by long flags, a short alias and a positional
      value given between them. */
  method ParamsAndArgs() returns (r: Result<map<string, string>, ParseError>)
    ensures r == Ok(map["test" := "bar", "test2" := "foo", "cheese" := "yeet"])
  {
    var parser := new ArgParse();
    parser.AddArg("cheese");
    parser.AddParam("test");
    parser.AddShortParam("test2", "t2");
    var input := ["--test", "bar", "yeet", "-t2", "foo"];
    parser.ScanMixed(input);
    r := parser.ParseArgs(input);
    CollectMixed();
  }

  lemma CollectMixed()
    ensures Collect([("test", "bar"), ("cheese", "yeet"), ("test2", "foo")])
      == map["test" := "bar", "test2" := "foo", "cheese" := "yeet"]
  {
    var p1, p2 := [("test", "bar")], [("test", "bar"), ("cheese", "yeet")];
    var pairs := [("test", "bar"), ("cheese", "yeet"), ("test2", "foo")];
    assert pairs[..2] == p2 && p2[..1] == p1 && p1[..0] == [];
    assert Collect(p1) == map["test" := "bar"];
    assert Collect(p2) == map["test" := "bar", "cheese" := "yeet"];
  }
}
