/** What a parse leaves behind: the values options hold, the rest of the arguments, the reports. */
module GivenValues {
  import opened CommandLine
  import opened Clusters
  import opened GivenOptions
  import opened Bytes

  // ---------------------------------------------------------------------------
  // Values
  // ---------------------------------------------------------------------------

  /** The value the round that starts with `args[0]` gives to the option, if any: attached to the
      name, or in the next argument, behind the name or behind a cluster that ends in its letter. */
  function RoundValue<V>(lookup: map<char, string>, s: State<V>, args: seq<string>, name: string): Option<string>
    requires args != []
  {
    var arg := args[0];
    if StartsWith(arg, "--") then LongValue(s, arg[2..], args, name)
    else if StartsWith(arg, "-") && |arg| > 1 && Letter(lookup, arg[|arg| - 1], name) then NextValue(s, args, name)
    else None
  }

  function LongValue<V>(s: State<V>, body: string, args: seq<string>, name: string): Option<string> {
    if '=' in body then
      var i := IndexOfEquals(body);
      if body[..i] == name && Accepts(s, name, body[i + 1..]) then Some(body[i + 1..]) else None
    else if body == name then NextValue(s, args, name)
    else None
  }

  function NextValue<V>(s: State<V>, args: seq<string>, name: string): Option<string> {
    if |args| > 1 && Accepts(s, name, args[1]) then Some(args[1]) else None
  }

  /** The last value given. */
  function LastGiven<V>(lookup: map<char, string>, s: State<V>, args: seq<string>, name: string): Option<string>
    decreases |args|
  {
    if args == [] then None
    else
      var later := LastGiven(lookup, s, args[Used(lookup, s, args)..], name);
      if later.Some? then later else RoundValue(lookup, s, args, name)
  }

  /** The option as it was, or set to what its reader makes of a value. */
  function Holding<V>(s: State<V>, name: string, value: Option<string>): Opt<V>
    requires s.TakesValue(name)
  {
    if value.Some? && s.options[name].reader(value.value).Some? then
      s.options[name].(has := true, actual := s.options[name].reader(value.value).value)
    else s.options[name]
  }

  lemma SetToHolds<V>(s: State<V>, name: string, value: string)
    requires Accepts(s, name, value)
    ensures s.SetTo(name, value).TakesValue(name)
    ensures s.SetTo(name, value).options[name] == Holding(s, name, Some(value))
  {
  }

  lemma GivesValue<V>(lookup: map<char, string>, s: State<V>, args: seq<string>, name: string)
    requires args != [] && s.TakesValue(name)
    ensures Gives(lookup, s, args, name) <==> RoundValue(lookup, s, args, name).Some?
    ensures RoundValue(lookup, s, args, name).Some? ==> Accepts(s, name, RoundValue(lookup, s, args, name).value)
  {
    var arg := args[0];
    if !StartsWith(arg, "--") && StartsWith(arg, "-") && |arg| > 1 {
      assert arg[1..][|arg[1..]| - 1] == arg[|arg| - 1];
    }
  }

  /** A round leaves the option holding the value it gives. */
  lemma RoundHolds<V>(lookup: map<char, string>, s: State<V>, args: seq<string>, name: string)
    requires Finished(lookup) && args != [] && s.TakesValue(name)
    ensures var t := Round(lookup, s, args).0;
      t.TakesValue(name) && t.options[name] == Holding(s, name, RoundValue(lookup, s, args, name))
  {
    var arg, t := args[0], Round(lookup, s, args).0;
    GivesValue(lookup, s, args, name);
    RoundKinds(lookup, s, args);
    if !Gives(lookup, s, args, name) {
      hide Round, Gives, RoundClean, RoundValue;
      RoundEffect(lookup, s, args, name);
    } else if StartsWith(arg, "--") {
      hide State.SetTo, State.Set, StartsWith;
      var body := arg[2..];
      var value := RoundValue(lookup, s, args, name).value;
      assert t == s.SetTo(name, value);
      SetToHolds(s, name, value);
    } else {
      var letters := arg[1..];
      hide State.SetTo, State.SetShorts, State.SetShort, StartsWith, SomeLetter, AllFlags;
      var front := letters[..|letters| - 1];
      var u := s.SetShorts(lookup, front);
      SetShortsEffect(lookup, s, front, name);
      SetShortsKinds(lookup, s, front);
      KindsKept(s, u, name, args[1]);
      assert t == u.SetTo(name, args[1]);
      SetToHolds(u, name, args[1]);
    }
  }

  lemma RoundValueKept<V>(lookup: map<char, string>, s: State<V>, t: State<V>, args: seq<string>, name: string)
    requires SameKinds(s, t) && args != []
    ensures RoundValue(lookup, s, args, name) == RoundValue(lookup, t, args, name)
  {
    hide SameKinds, Accepts, Letter;
    var body := if |args[0]| >= 2 then args[0][2..] else "";
    KindsKept(s, t, name, if |args| > 1 then args[1] else "");
    if '=' in body {
      KindsKept(s, t, name, body[IndexOfEquals(body) + 1..]);
    }
  }

  lemma {:induction false} LastGivenKept<V>(
      lookup: map<char, string>, s: State<V>, t: State<V>, args: seq<string>, name: string)
    requires SameKinds(s, t)
    ensures LastGiven(lookup, s, args, name) == LastGiven(lookup, t, args, name)
    decreases |args|
  {
    hide SameKinds, RoundValue, Used;
    if args == [] {
    } else {
      UsedKept(lookup, s, t, args);
      RoundValueKept(lookup, s, t, args, name);
      LastGivenKept(lookup, s, t, args[Used(lookup, s, args)..], name);
    }
  }

  /** The second of two values replaces the first; no second value leaves it. */
  lemma HoldingTwice<V>(s: State<V>, t: State<V>, name: string, first: Option<string>, second: Option<string>)
    requires s.TakesValue(name) && t.TakesValue(name) && t.options[name] == Holding(s, name, first)
    requires second.Some? ==> Accepts(s, name, second.value)
    ensures Holding(t, name, second) == Holding(s, name, if second.Some? then second else first)
  {
  }

  /** A value given is one the reader accepts. */
  lemma {:induction false} LastAccepted<V>(lookup: map<char, string>, s: State<V>, args: seq<string>, name: string)
    requires s.TakesValue(name)
    ensures var last := LastGiven(lookup, s, args, name); last.Some? ==> Accepts(s, name, last.value)
    decreases |args|
  {
    hide Accepts, RoundValue, Used;
    if args == [] {
    } else {
      GivesValue(lookup, s, args, name);
      LastAccepted(lookup, s, args[Used(lookup, s, args)..], name);
    }
  }

  /** After the loop an option holds the last value given, and what it held before if there is
      none. */
  lemma {:induction false} LoopHolds<V>(lookup: map<char, string>, s: State<V>, args: seq<string>, name: string)
    requires Finished(lookup) && s.TakesValue(name)
    ensures var t := Rounds(lookup, s, args);
      t.TakesValue(name) && t.options[name] == Holding(s, name, LastGiven(lookup, s, args, name))
    decreases |args|
  {
    hide Round, RoundValue, Used, Holding, Accepts, SameKinds;
    if args == [] {
      NothingHeld(s, name);
    } else {
      var t, rest := Round(lookup, s, args).0, args[Used(lookup, s, args)..];
      RoundUses(lookup, s, args);
      RoundHolds(lookup, s, args, name);
      RoundKinds(lookup, s, args);
      LoopHolds(lookup, t, rest, name);
      LastGivenKept(lookup, s, t, rest, name);
      LastAccepted(lookup, s, rest, name);
      HoldingTwice(s, t, name, RoundValue(lookup, s, args, name), LastGiven(lookup, s, rest, name));
    }
  }

  lemma NothingHeld<V>(s: State<V>, name: string)
    requires s.TakesValue(name)
    ensures Holding(s, name, None) == s.options[name]
  {
  }

  /** The same for a whole parse. */
  lemma ParseHolds<V>(
      names: seq<string>, options: map<string, Opt<V>>, lookup: map<char, string>, argv: seq<string>, name: string)
    requires AddShorts(names, options, map[]) == Table(lookup) && argv != []
    requires name in options && options[name].HasValue()
    ensures var s, t := State(options, [], []), Parsed(names, options, argv).state;
      && name in t.options
      && t.options[name] == Holding(s, name, LastGiven(lookup, s, argv[1..], name))
  {
    TableFinished(names, options, lookup);
    hide AddShorts, Rounds, Missing, LastGiven, Holding;
    LoopHolds(lookup, State(options, [], []), argv[1..], name);
  }

  /** Three ways to give a value. */
  lemma ValueForms<V>(lookup: map<char, string>, s: State<V>, letters: string, name: string, value: string, post: seq<string>)
    requires Accepts(s, name, value) && '=' !in name
    ensures RoundValue(lookup, s, ["--" + name + "=" + value] + post, name) == Some(value)
    ensures RoundValue(lookup, s, ["--" + name, value] + post, name) == Some(value)
    ensures letters != [] && letters[0] != '-' && Letter(lookup, letters[|letters| - 1], name) ==>
      RoundValue(lookup, s, ["-" + letters, value] + post, name) == Some(value)
  {
    LongParts(name, value);
    if letters != [] && letters[0] != '-' {
      ShortParts(letters);
    }
  }

  /** And how many arguments they use. */
  lemma ValueFormsUse<V>(lookup: map<char, string>, s: State<V>, letters: string, name: string, value: string, post: seq<string>)
    requires Finished(lookup) && Accepts(s, name, value) && '=' !in name
    ensures Used(lookup, s, ["--" + name + "=" + value] + post) == 1
    ensures Used(lookup, s, ["--" + name, value] + post) == 2
    ensures letters != [] && letters[0] != '-' && Letter(lookup, letters[|letters| - 1], name) ==>
      Used(lookup, s, ["-" + letters, value] + post) == 2
  {
    LongParts(name, value);
    if letters != [] && letters[0] != '-' {
      ShortParts(letters);
    }
  }

  lemma {:induction false} LastGivenSplit<V>(
      lookup: map<char, string>, s: State<V>, pre: seq<string>, post: seq<string>, name: string)
    requires Finished(lookup) && AtBoundary(lookup, s, pre)
    ensures var last := LastGiven(lookup, s, post, name);
      LastGiven(lookup, s, pre + post, name) == if last.Some? then last else LastGiven(lookup, s, pre, name)
    decreases |pre|
  {
    hide RoundValue, Width;
    if pre == [] {
      assert pre + post == post;
    } else {
      var w := Used(lookup, s, pre);
      assert (pre + post)[w..] == pre[w..] + post;
      LastGivenSplit(lookup, s, pre[w..], post, name);
      RoundValueIsLocal(lookup, s, pre, post, name);
    }
  }

  lemma RoundValueIsLocal<V>(lookup: map<char, string>, s: State<V>, args: seq<string>, post: seq<string>, name: string)
    requires Finished(lookup) && args != [] && Width(lookup, s, args[0]) <= |args|
    ensures RoundValue(lookup, s, args + post, name) == RoundValue(lookup, s, args, name)
  {
    assert (args + post)[0] == args[0] && (|args| > 1 ==> (args + post)[1] == args[1]);
  }

  /** An accepted value given in any of the three ways, `--name=value`, `--name` `value`, or a cluster
      that ends in the option's letter and `value`, is what the option holds after the parse,
      whatever came before and whatever follows that gives no other. */
  lemma ValueGiven<V>(
      names: seq<string>, options: map<string, Opt<V>>, lookup: map<char, string>, prog: string,
      pre: seq<string>, given: seq<string>, letters: string, name: string, value: string, post: seq<string>)
    requires AddShorts(names, options, map[]) == Table(lookup)
    requires AtBoundary(lookup, State(options, [], []), pre)
    requires '=' !in name && name in options && options[name].HasValue() && options[name].reader(value).Some?
    requires
      || given == ["--" + name + "=" + value]
      || given == ["--" + name, value]
      || (letters != [] && letters[0] != '-' && letters[|letters| - 1] in lookup
          && lookup[letters[|letters| - 1]] == name && given == ["-" + letters, value])
    requires LastGiven(lookup, State(options, [], []), post, name) == None
    ensures var t := Parsed(names, options, [prog] + pre + (given + post)).state;
      && name in t.options
      && t.options[name] == options[name].(has := true, actual := options[name].reader(value).value)
  {
    var s, args := State(options, [], []), pre + (given + post);
    TableFinished(names, options, lookup);
    FirstGiven(lookup, s, given, letters, name, value, post);
    hide AddShorts, Parsed, AtBoundary, LastGiven;
    LastGivenSplit(lookup, s, pre, given + post, name);
    assert [prog] + pre + (given + post) == [prog] + args && ([prog] + args)[1..] == args;
    ParseHolds(names, options, lookup, [prog] + args, name);
  }

  lemma FirstGiven<V>(
      lookup: map<char, string>, s: State<V>, given: seq<string>, letters: string, name: string, value: string,
      post: seq<string>)
    requires Finished(lookup) && Accepts(s, name, value) && '=' !in name
    requires
      || given == ["--" + name + "=" + value]
      || given == ["--" + name, value]
      || (letters != [] && letters[0] != '-' && letters[|letters| - 1] in lookup
          && lookup[letters[|letters| - 1]] == name && given == ["-" + letters, value])
    requires LastGiven(lookup, s, post, name) == None
    ensures LastGiven(lookup, s, given + post, name) == Some(value)
  {
    ValueForms(lookup, s, letters, name, value, post);
    ValueFormsUse(lookup, s, letters, name, value, post);
    hide RoundValue, Used, Accepts, Finished;
    assert (given + post)[|given|..] == post;
  }

  // ---------------------------------------------------------------------------
  // The rest of the arguments
  // ---------------------------------------------------------------------------

  /** The arguments that start a round without a dash. */
  function Rest<V>(lookup: map<char, string>, s: State<V>, args: seq<string>): seq<string>
    decreases |args|
  {
    if args == [] then []
    else (if StartsWith(args[0], "-") then [] else [args[0]]) + Rest(lookup, s, args[Used(lookup, s, args)..])
  }

  lemma {:induction false} SetShortsOthers<V>(lookup: map<char, string>, s: State<V>, letters: string)
    ensures s.SetShorts(lookup, letters).others == s.others
    decreases |letters|
  {
    if letters == [] {
    } else {
      SetShortsOthers(lookup, s.SetShort(lookup, letters[0]), letters[1..]);
    }
  }

  lemma RoundOthers<V>(lookup: map<char, string>, s: State<V>, args: seq<string>)
    requires args != []
    ensures Round(lookup, s, args).0.others == s.others + if StartsWith(args[0], "-") then [] else [args[0]]
  {
    var arg := args[0];
    TwoDashes(arg);
    hide State.SetShorts, StartsWith;
    if StartsWith(arg, "-") && |arg| > 1 {
      SetShortsOthers(lookup, s, arg[1..][..|arg| - 2]);
    }
  }

  lemma {:induction false} UsedRestKept<V>(lookup: map<char, string>, s: State<V>, t: State<V>, args: seq<string>)
    requires SameKinds(s, t)
    ensures Rest(lookup, s, args) == Rest(lookup, t, args)
    decreases |args|
  {
    hide SameKinds, Used;
    if args == [] {
    } else {
      UsedKept(lookup, s, t, args);
      UsedRestKept(lookup, s, t, args[Used(lookup, s, args)..]);
    }
  }

  /** `rest()` after the loop: exactly these arguments, in order; a lone dash is none of them. */
  lemma {:induction false} RestIs<V>(lookup: map<char, string>, s: State<V>, args: seq<string>)
    ensures Rounds(lookup, s, args).others == s.others + Rest(lookup, s, args)
    decreases |args|
  {
    hide Round, Used, SameKinds, StartsWith;
    if args == [] {
    } else {
      var t, rest := Round(lookup, s, args).0, args[Used(lookup, s, args)..];
      RoundUses(lookup, s, args);
      RoundOthers(lookup, s, args);
      RoundKinds(lookup, s, args);
      RestIs(lookup, t, rest);
      UsedRestKept(lookup, s, t, rest);
      var own := if StartsWith(args[0], "-") then [] else [args[0]];
      assert (s.others + own) + Rest(lookup, s, rest) == s.others + (own + Rest(lookup, s, rest));
    }
  }

  /** A lone dash changes nothing. */
  lemma LoneDash<V>(lookup: map<char, string>, s: State<V>, post: seq<string>)
    ensures Rounds(lookup, s, ["-"] + post) == Rounds(lookup, s, post)
  {
    assert (["-"] + post)[1..] == post;
  }

  // ---------------------------------------------------------------------------
  // Reports
  // ---------------------------------------------------------------------------

  /** What is reported for a long option that is not defined, takes no value, lacks one, or is
      given one its reader rejects: once each, and parsing goes on. */
  lemma LongReports<V>(lookup: map<char, string>, s: State<V>, name: string, value: string, post: seq<string>)
    requires '=' !in name
    ensures name !in s.options ==>
      && Rounds(lookup, s, ["--" + name] + post) == Rounds(lookup, s.Error("undefined option: --" + name), post)
      && Rounds(lookup, s, ["--" + name + "=" + value] + post)
         == Rounds(lookup, s.Error("undefined option: --" + name), post)
    ensures name in s.options && !Accepts(s, name, value) ==>
      Rounds(lookup, s, ["--" + name + "=" + value] + post)
      == Rounds(lookup, s.Error("option value is invalid: --" + name + "=" + value), post)
    ensures s.TakesValue(name) ==>
      Rounds(lookup, s, ["--" + name]) == s.Error("option needs value: --" + name)
  {
    LongParts(name, value);
    var one, two, last := ["--" + name] + post, ["--" + name + "=" + value] + post, ["--" + name];
    assert one[1..] == post && two[1..] == post && last[1..] == [];
    hide StartsWith, IndexOfEquals;
    assert Round(lookup, s, two) == (s.SetTo(name, value), 1);
    if name !in s.options {
      assert Round(lookup, s, one) == (s.Error("undefined option: --" + name), 1);
    }
    if s.TakesValue(name) {
      assert Round(lookup, s, last) == (s.Error("option needs value: --" + name), 1);
    }
  }

  /** The same for a short option: undefined, or without its value at the end. */
  lemma ShortReports<V>(lookup: map<char, string>, s: State<V>, c: char, post: seq<string>)
    requires Finished(lookup) && c != '-'
    ensures c !in lookup ==>
      Rounds(lookup, s, ["-" + [c]] + post) == Rounds(lookup, s.Error("undefined short option: -" + [c]), post)
    ensures c in lookup && s.TakesValue(lookup[c]) ==>
      Rounds(lookup, s, ["-" + [c]]) == s.Error("option needs value: --" + lookup[c])
  {
    ShortParts([c]);
    var one, last := ["-" + [c]] + post, ["-" + [c]];
    assert one[1..] == post && last[1..] == [] && [c][..0] == [];
    hide StartsWith;
    if c !in lookup {
      assert Round(lookup, s, one) == (s.Error("undefined short option: -" + [c]), 1);
    } else if s.TakesValue(lookup[c]) {
      assert Round(lookup, s, last) == (s.Error("option needs value: --" + lookup[c]), 1);
    }
  }

  /** The closing reports: one for each required option that was not given, in the order of the
      options, whatever stands around it. */
  lemma {:induction false} MissingConcat<V>(front: seq<string>, back: seq<string>, options: map<string, Opt<V>>)
    ensures Missing(front + back, options) == Missing(front, options) + Missing(back, options)
    decreases |front|
  {
    var all := front + back;
    if front == [] {
      assert all == back;
    } else {
      assert all[1..] == front[1..] + back;
      MissingConcat(front[1..], back, options);
    }
  }

  lemma MissingOne<V>(name: string, options: map<string, Opt<V>>)
    requires name in options
    ensures Missing([name], options) == if options[name].Satisfied() then [] else ["need option: --" + name]
    ensures options[name].Satisfied() <==> !(options[name].Valued? && options[name].need && !options[name].has)
  {
  }

  /** The two reports that end a parse before the loop. */
  lemma EarlyReports<V>(names: seq<string>, options: map<string, Opt<V>>, argv: seq<string>)
    ensures argv == [] ==>
      Parsed(names, options, argv) == Outcome(false, State(options, ["argument number must be longer than 0"], []))
    ensures argv != [] && AddShorts(names, options, map[]).Ambiguous? ==>
      var c := AddShorts(names, options, map[]).c;
      && Parsed(names, options, argv) == Outcome(false, State(options, ["short option '" + [c] + "' is ambiguous"], []))
      && exists i: nat, j: nat :: Clash(names, options, i, j) && ShortOf(options, names[i]) == c
  {
    if AddShorts(names, options, map[]).Ambiguous? {
      AmbiguousClashes([], names, options, map[]);
      assert [] + names == names;
    }
  }

  lemma {:induction false} AmbiguousClashes<V>(
      done: seq<string>, names: seq<string>, options: map<string, Opt<V>>, table: map<char, string>)
    requires TableOf(done, options, table) && AddShorts(names, options, table).Ambiguous?
    ensures exists i: nat, j: nat ::
      Clash(done + names, options, i, j) && ShortOf(options, (done + names)[i]) == AddShorts(names, options, table).c
    decreases |names|
  {
    if names == [] {
    } else {
      var name := names[0];
      var initial := ShortOf(options, name);
      assert done + names == (done + [name]) + names[1..];
      if initial == NO_SHORT {
        AmbiguousClashes(done + [name], names[1..], options, table);
      } else if initial in table {
        var i :| 0 <= i < |done| && done[i] == table[initial];
        assert Clash(done + names, options, i, |done|);
      } else {
        AmbiguousClashes(done + [name], names[1..], options, table[initial := name]);
      }
    }
  }
}
