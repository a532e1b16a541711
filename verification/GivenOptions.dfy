/** Which options a command line gives, and when a parse succeeds: conditions on the arguments. */
module GivenOptions {
  import opened CommandLine
  import opened Clusters
  import opened Bytes

  /** The option takes a value, and its reader accepts this one. */
  predicate Accepts<V>(s: State<V>, name: string, value: string) {
    s.TakesValue(name) && s.options[name].reader(value).Some?
  }

  predicate IsFlag<V>(s: State<V>, name: string) {
    name in s.options && !s.TakesValue(name)
  }

  predicate Letter(lookup: map<char, string>, c: char, name: string) {
    c in lookup && lookup[c] == name
  }

  predicate SomeLetter(lookup: map<char, string>, letters: string, name: string) {
    exists k :: 0 <= k < |letters| && Letter(lookup, letters[k], name)
  }

  /** The round that starts with `args[0]` gives the option: a flag by its name or by a letter
      anywhere in a cluster, an option with a value by its name or by the last letter, with a value
      that its reader accepts. */
  predicate Gives<V>(lookup: map<char, string>, s: State<V>, args: seq<string>, name: string)
    requires args != []
  {
    var arg := args[0];
    if StartsWith(arg, "--") then GivesLong(s, arg[2..], args, name)
    else StartsWith(arg, "-") && |arg| > 1 && GivesShort(lookup, s, arg[1..], args, name)
  }

  predicate GivesLong<V>(s: State<V>, body: string, args: seq<string>, name: string) {
    if '=' in body then
      var i := IndexOfEquals(body);
      body[..i] == name && Accepts(s, name, body[i + 1..])
    else body == name && (IsFlag(s, name) || (|args| > 1 && Accepts(s, name, args[1])))
  }

  predicate GivesShort<V>(lookup: map<char, string>, s: State<V>, letters: string, args: seq<string>, name: string)
    requires letters != []
  {
    if s.TakesValue(name) then
      Letter(lookup, letters[|letters| - 1], name) && |args| > 1 && Accepts(s, name, args[1])
    else IsFlag(s, name) && SomeLetter(lookup, letters, name)
  }

  /** The number of arguments a round uses. */
  function Used<V>(lookup: map<char, string>, s: State<V>, args: seq<string>): (n: nat)
    requires args != []
    ensures 1 <= n <= |args|
  {
    Min(Width(lookup, s, args[0]), |args|)
  }

  /** Some round gives the option. */
  predicate Given<V>(lookup: map<char, string>, s: State<V>, args: seq<string>, name: string)
    decreases |args|
  {
    args != [] && (Gives(lookup, s, args, name) || Given(lookup, s, args[Used(lookup, s, args)..], name))
  }

  /** The round that starts with `args[0]` has nothing to report. */
  predicate RoundClean<V>(lookup: map<char, string>, s: State<V>, args: seq<string>)
    requires args != []
  {
    var arg := args[0];
    if StartsWith(arg, "--") then CleanLong(s, arg[2..], args)
    else if StartsWith(arg, "-") && |arg| > 1 then CleanShort(lookup, s, arg[1..], args)
    else true
  }

  predicate CleanLong<V>(s: State<V>, body: string, args: seq<string>) {
    if '=' in body then
      var i := IndexOfEquals(body);
      Accepts(s, body[..i], body[i + 1..])
    else IsFlag(s, body) || (|args| > 1 && Accepts(s, body, args[1]))
  }

  predicate CleanShort<V>(lookup: map<char, string>, s: State<V>, letters: string, args: seq<string>)
    requires letters != []
  {
    var last := letters[|letters| - 1];
    && AllFlags(lookup, s, letters[..|letters| - 1])
    && last in lookup
    && (IsFlag(s, lookup[last]) || (|args| > 1 && Accepts(s, lookup[last], args[1])))
  }

  predicate FlagLetter<V>(lookup: map<char, string>, s: State<V>, c: char) {
    c in lookup && IsFlag(s, lookup[c])
  }

  predicate AllFlags<V>(lookup: map<char, string>, s: State<V>, letters: string) {
    forall k :: 0 <= k < |letters| ==> FlagLetter(lookup, s, letters[k])
  }

  /** No round has anything to report: every option is defined, values stand where they are due and
      nowhere else, and are accepted. */
  predicate Clean<V>(lookup: map<char, string>, s: State<V>, args: seq<string>)
    decreases |args|
  {
    args == [] || (RoundClean(lookup, s, args) && Clean(lookup, s, args[Used(lookup, s, args)..]))
  }

  // ---------------------------------------------------------------------------
  // The effect of one step on one option and on the errors
  // ---------------------------------------------------------------------------

  /** What a step does to the option `name` and to the errors: it sets the one if it gives it, and
      leaves it as it is otherwise; it reports something if and only if it is not clean. */
  ghost predicate Effect<V>(s: State<V>, t: State<V>, name: string, gives: bool, clean: bool) {
    && (name in s.options ==>
          && name in t.options && t.options[name].short == s.options[name].short
          && if gives then t.options[name].has else t.options[name] == s.options[name])
    && s.errors <= t.errors
    && (clean <==> t.errors == s.errors)
  }

  lemma SetEffect<V>(s: State<V>, called: string, name: string)
    ensures Effect(s, s.Set(called), name, called == name && IsFlag(s, name), IsFlag(s, called))
  {
  }

  lemma SetToEffect<V>(s: State<V>, called: string, value: string, name: string)
    ensures Effect(s, s.SetTo(called, value), name, called == name && Accepts(s, name, value), Accepts(s, called, value))
  {
  }

  lemma ErrorEffect<V>(s: State<V>, message: string, name: string)
    ensures Effect(s, s.Error(message), name, false, false)
  {
  }

  lemma NoEffect<V>(s: State<V>, t: State<V>, name: string)
    requires t.options == s.options && t.errors == s.errors
    ensures Effect(s, t, name, false, true)
  {
  }

  /** Two steps in a row. */
  lemma TwoEffects<V>(s: State<V>, t: State<V>, u: State<V>, name: string, g1: bool, c1: bool, g2: bool, c2: bool)
    requires Effect(s, t, name, g1, c1) && Effect(t, u, name, g2, c2)
    ensures Effect(s, u, name, g1 || g2, c1 && c2)
  {
  }

  lemma SetShortEffect<V>(lookup: map<char, string>, s: State<V>, c: char, name: string)
    requires Finished(lookup)
    ensures Effect(s, s.SetShort(lookup, c), name, Letter(lookup, c, name) && IsFlag(s, name), FlagLetter(lookup, s, c))
  {
    hide Effect, State.Set, State.Error, IsFlag;
    if c in lookup {
      SetEffect(s, lookup[c], name);
    } else {
      ErrorEffect(s, "undefined short option: -" + [c], name);
    }
  }

  /** The conditions look at kinds of options only, which parsing does not change. */
  lemma KindsKept<V>(s: State<V>, t: State<V>, name: string, value: string)
    requires SameKinds(s, t)
    ensures Accepts(s, name, value) <==> Accepts(t, name, value)
    ensures IsFlag(s, name) <==> IsFlag(t, name)
    ensures s.TakesValue(name) <==> t.TakesValue(name)
    ensures name in s.options <==> name in t.options
  {
  }

  lemma {:induction false} SetShortsEffect<V>(lookup: map<char, string>, s: State<V>, letters: string, name: string)
    requires Finished(lookup)
    ensures Effect(s, s.SetShorts(lookup, letters), name,
                   SomeLetter(lookup, letters, name) && IsFlag(s, name), AllFlags(lookup, s, letters))
    decreases |letters|
  {
    hide Effect, State.SetShort, SameKinds, IsFlag, Letter, SomeLetter, AllFlags, FlagLetter;
    if letters == [] {
      NoEffect(s, s, name);
      NoLetters(lookup, s, name);
    } else {
      var c, more := letters[0], letters[1..];
      var t := s.SetShort(lookup, c);
      SetShortEffect(lookup, s, c, name);
      SetShortKinds(lookup, s, c);
      SetShortsEffect(lookup, t, more, name);
      KindsKept(s, t, name, "");
      AllFlagsKept(lookup, s, t, more);
      TwoEffects(s, t, s.SetShorts(lookup, letters), name,
                 Letter(lookup, c, name) && IsFlag(s, name), FlagLetter(lookup, s, c),
                 SomeLetter(lookup, more, name) && IsFlag(t, name), AllFlags(lookup, t, more));
      MoreLetters(lookup, s, letters, name);
    }
  }

  lemma NoLetters<V>(lookup: map<char, string>, s: State<V>, name: string)
    ensures !SomeLetter(lookup, [], name) && AllFlags(lookup, s, [])
  {
  }

  lemma AllFlagsKept<V>(lookup: map<char, string>, s: State<V>, t: State<V>, letters: string)
    requires SameKinds(s, t)
    ensures AllFlags(lookup, s, letters) <==> AllFlags(lookup, t, letters)
  {
    assert forall c :: FlagLetter(lookup, s, c) <==> FlagLetter(lookup, t, c);
  }

  lemma MoreLetters<V>(lookup: map<char, string>, s: State<V>, letters: string, name: string)
    requires letters != []
    ensures SomeLetter(lookup, letters, name)
       <==> Letter(lookup, letters[0], name) || SomeLetter(lookup, letters[1..], name)
    ensures AllFlags(lookup, s, letters) <==> FlagLetter(lookup, s, letters[0]) && AllFlags(lookup, s, letters[1..])
  {
    var more := letters[1..];
    hide Letter, FlagLetter;
    assert forall k :: 1 <= k < |letters| ==> letters[k] == more[k - 1];
    assert forall k :: 0 <= k < |more| ==> more[k] == letters[k + 1];
  }

  lemma LastLetter(lookup: map<char, string>, letters: string, name: string)
    requires letters != []
    ensures var front, last := letters[..|letters| - 1], letters[|letters| - 1];
      SomeLetter(lookup, letters, name) <==> SomeLetter(lookup, front, name) || Letter(lookup, last, name)
  {
    var n := |letters| - 1;
    var front := letters[..n];
    hide Letter;
    assert forall k :: 0 <= k < n ==> letters[k] == front[k];
  }

  // ---------------------------------------------------------------------------
  // The effect of a round and of the loop
  // ---------------------------------------------------------------------------

  lemma LongEffect<V>(s: State<V>, body: string, args: seq<string>, name: string)
    requires args != []
    ensures Effect(s, LongRound(s, body, args).0, name, GivesLong(s, body, args, name), CleanLong(s, body, args))
  {
    hide Effect, State.Set, State.SetTo, State.Error;
    if '=' in body {
      var i := IndexOfEquals(body);
      SetToEffect(s, body[..i], body[i + 1..], name);
    } else if body !in s.options {
      ErrorEffect(s, "undefined option: --" + body, name);
    } else if s.TakesValue(body) {
      if |args| == 1 {
        ErrorEffect(s, "option needs value: --" + body, name);
      } else {
        SetToEffect(s, body, args[1], name);
      }
    } else {
      SetEffect(s, body, name);
    }
  }

  lemma ShortEffect<V>(lookup: map<char, string>, s: State<V>, letters: string, args: seq<string>, name: string)
    requires Finished(lookup) && args != [] && letters != []
    ensures Effect(s, ShortRound(lookup, s, letters, args).0, name,
                   GivesShort(lookup, s, letters, args, name), CleanShort(lookup, s, letters, args))
  {
    var front, last := letters[..|letters| - 1], letters[|letters| - 1];
    var t := s.SetShorts(lookup, front);
    hide Effect, State.SetShort, State.SetShorts, State.SetTo, SameKinds, SomeLetter, AllFlags;
    SetShortsEffect(lookup, s, front, name);
    SetShortsKinds(lookup, s, front);
    LastLetter(lookup, letters, name);
    var g1, c1 := SomeLetter(lookup, front, name) && IsFlag(s, name), AllFlags(lookup, s, front);
    KindsKept(s, t, name, if |args| > 1 then args[1] else "");
    if last in lookup {
      KindsKept(s, t, lookup[last], if |args| > 1 then args[1] else "");
    }
    if last in lookup && |args| > 1 && t.TakesValue(lookup[last]) {
      SetToEffect(t, lookup[last], args[1], name);
      TwoEffects(s, t, t.SetTo(lookup[last], args[1]), name, g1, c1,
                 lookup[last] == name && Accepts(t, name, args[1]), Accepts(t, lookup[last], args[1]));
    } else {
      SetShortEffect(lookup, t, last, name);
      TwoEffects(s, t, t.SetShort(lookup, last), name, g1, c1,
                 Letter(lookup, last, name) && IsFlag(t, name), FlagLetter(lookup, t, last));
    }
  }

  lemma RoundEffect<V>(lookup: map<char, string>, s: State<V>, args: seq<string>, name: string)
    requires Finished(lookup) && args != []
    ensures Effect(s, Round(lookup, s, args).0, name, Gives(lookup, s, args, name), RoundClean(lookup, s, args))
  {
    var arg := args[0];
    hide Effect, LongRound, ShortRound, GivesLong, GivesShort, CleanLong, CleanShort, StartsWith;
    if StartsWith(arg, "--") {
      LongEffect(s, arg[2..], args, name);
    } else if StartsWith(arg, "-") && |arg| > 1 {
      ShortEffect(lookup, s, arg[1..], args, name);
    } else {
      NoEffect(s, Round(lookup, s, args).0, name);
    }
  }

  /** A round uses up `Used` arguments, however few there are. */
  lemma RoundUses<V>(lookup: map<char, string>, s: State<V>, args: seq<string>)
    requires args != []
    ensures Round(lookup, s, args).1 == Used(lookup, s, args)
  {
    hide State.SetShort, State.Set, State.SetTo, State.SetShorts;
    var arg := args[0];
    if Width(lookup, s, arg) <= |args| {
      RoundIsLocal(lookup, s, args, []);
    }
  }

  lemma UsedKept<V>(lookup: map<char, string>, s: State<V>, t: State<V>, args: seq<string>)
    requires SameKinds(s, t) && args != []
    ensures Used(lookup, s, args) == Used(lookup, t, args)
  {
  }

  lemma GivesKept<V>(lookup: map<char, string>, s: State<V>, t: State<V>, args: seq<string>, name: string)
    requires SameKinds(s, t) && args != []
    ensures Gives(lookup, s, args, name) <==> Gives(lookup, t, args, name)
    ensures RoundClean(lookup, s, args) <==> RoundClean(lookup, t, args)
  {
    hide SameKinds, Accepts, IsFlag, AllFlags, SomeLetter, Letter, State.TakesValue;
    var arg, next := args[0], if |args| > 1 then args[1] else "";
    KindsKept(s, t, name, next);
    if StartsWith(arg, "--") {
      var body := arg[2..];
      KindsKept(s, t, body, next);
      if '=' in body {
        var i := IndexOfEquals(body);
        KindsKept(s, t, name, body[i + 1..]);
        KindsKept(s, t, body[..i], body[i + 1..]);
      }
    } else if StartsWith(arg, "-") && |arg| > 1 {
      var letters := arg[1..];
      var last := letters[|letters| - 1];
      AllFlagsKept(lookup, s, t, letters[..|letters| - 1]);
      if last in lookup {
        KindsKept(s, t, lookup[last], next);
      }
    }
  }

  lemma {:induction false} RestKept<V>(lookup: map<char, string>, s: State<V>, t: State<V>, args: seq<string>, name: string)
    requires SameKinds(s, t)
    ensures Given(lookup, s, args, name) <==> Given(lookup, t, args, name)
    ensures Clean(lookup, s, args) <==> Clean(lookup, t, args)
    decreases |args|
  {
    hide SameKinds, Gives, RoundClean, Used;
    if args == [] {
    } else {
      UsedKept(lookup, s, t, args);
      GivesKept(lookup, s, t, args, name);
      RestKept(lookup, s, t, args[Used(lookup, s, args)..], name);
    }
  }

  /** The loop: an option is set if some round gives it and unchanged otherwise, and nothing is
      reported if and only if all rounds are clean. */
  lemma {:induction false} LoopEffect<V>(lookup: map<char, string>, s: State<V>, args: seq<string>, name: string)
    requires Finished(lookup)
    ensures var t := Rounds(lookup, s, args);
      && SameKinds(s, t)
      && s.errors <= t.errors && (t.errors == s.errors <==> Clean(lookup, s, args))
      && (name in s.options ==>
            && t.options[name].short == s.options[name].short
            && (Given(lookup, s, args, name) ==> t.options[name].has)
            && (!Given(lookup, s, args, name) ==> t.options[name] == s.options[name])
            && (s.options[name].has ==> t.options[name].has))
    decreases |args|
  {
    hide SameKinds, Gives, RoundClean, Round, Used;
    if args == [] {
      KindsReflexive(s);
      assert s.errors == Rounds(lookup, s, args).errors;
    } else {
      var u, rest := Round(lookup, s, args).0, args[Used(lookup, s, args)..];
      RoundEffect(lookup, s, args, name);
      RoundUses(lookup, s, args);
      RoundKinds(lookup, s, args);
      LoopEffect(lookup, u, rest, name);
      RestKept(lookup, s, u, rest, name);
      KindsTransitive(s, u, Rounds(lookup, u, rest));
    }
  }

  lemma KindsReflexive<V>(s: State<V>)
    ensures SameKinds(s, s)
  {
  }

  lemma KindsTransitive<V>(s: State<V>, t: State<V>, u: State<V>)
    requires SameKinds(s, t) && SameKinds(t, u)
    ensures SameKinds(s, u)
  {
  }

  // ---------------------------------------------------------------------------
  // Whole parses
  // ---------------------------------------------------------------------------

  /** After a parse an option is set if and only if it was before or some argument gives it. */
  lemma GivenIff<V>(
      names: seq<string>, options: map<string, Opt<V>>, lookup: map<char, string>, argv: seq<string>, name: string)
    requires AddShorts(names, options, map[]) == Table(lookup) && argv != [] && name in options
    ensures var t := Parsed(names, options, argv).state;
      && name in t.options && t.options[name].short == options[name].short
      && (t.options[name].has <==> options[name].has || Given(lookup, State(options, [], []), argv[1..], name))
  {
    TableFinished(names, options, lookup);
    hide AddShorts, Rounds, Missing, Given, SameKinds;
    LoopEffect(lookup, State(options, [], []), argv[1..], name);
  }

  /** Arguments cut between two options. */
  lemma {:induction false} GivenSplit<V>(
      lookup: map<char, string>, s: State<V>, pre: seq<string>, post: seq<string>, name: string)
    requires Finished(lookup) && AtBoundary(lookup, s, pre)
    ensures Given(lookup, s, pre + post, name) <==> Given(lookup, s, pre, name) || Given(lookup, s, post, name)
    decreases |pre|
  {
    hide Gives, Width;
    if pre == [] {
      assert pre + post == post;
    } else {
      var w := Used(lookup, s, pre);
      assert (pre + post)[w..] == pre[w..] + post;
      GivenSplit(lookup, s, pre[w..], post, name);
      GivesIsLocal(lookup, s, pre, post, name);
    }
  }

  lemma GivesIsLocal<V>(lookup: map<char, string>, s: State<V>, args: seq<string>, post: seq<string>, name: string)
    requires Finished(lookup) && args != [] && Width(lookup, s, args[0]) <= |args|
    ensures Gives(lookup, s, args + post, name) <==> Gives(lookup, s, args, name)
  {
    assert (args + post)[0] == args[0] && (|args| > 1 ==> (args + post)[1] == args[1]);
  }

  /** A flag given by its name, or by a letter of a cluster, is set after the parse, whatever stands
      around it. */
  lemma FlagGiven<V>(
      names: seq<string>, options: map<string, Opt<V>>, lookup: map<char, string>, prog: string,
      pre: seq<string>, arg: string, name: string, post: seq<string>)
    requires AddShorts(names, options, map[]) == Table(lookup)
    requires AtBoundary(lookup, State(options, [], []), pre)
    requires name in options && options[name].Flag?
    requires (arg == "--" + name && '=' !in name)
          || (StartsWith(arg, "-") && !StartsWith(arg, "--") && |arg| > 1 && SomeLetter(lookup, arg[1..], name))
    ensures var t := Parsed(names, options, [prog] + pre + ([arg] + post)).state;
      name in t.options && t.options[name].has
  {
    var s0, args := State(options, [], []), pre + ([arg] + post);
    TableFinished(names, options, lookup);
    FlagArgument(lookup, s0, arg, name, post);
    hide AddShorts, Parsed, Given, AtBoundary, StartsWith, SomeLetter;
    GivenSplit(lookup, s0, pre, [arg] + post, name);
    assert [prog] + pre + ([arg] + post) == [prog] + args && ([prog] + args)[1..] == args;
    GivenIff(names, options, lookup, [prog] + args, name);
  }

  lemma FlagArgument<V>(lookup: map<char, string>, s: State<V>, arg: string, name: string, post: seq<string>)
    requires IsFlag(s, name)
    requires (arg == "--" + name && '=' !in name)
          || (StartsWith(arg, "-") && !StartsWith(arg, "--") && |arg| > 1 && SomeLetter(lookup, arg[1..], name))
    ensures Given(lookup, s, [arg] + post, name)
  {
    assert ([arg] + post)[0] == arg;
    if arg == "--" + name && '=' !in name {
      LongParts(name, "");
      assert GivesLong(s, name, [arg] + post, name);
    } else {
      assert GivesShort(lookup, s, arg[1..], [arg] + post, name);
    }
  }

  /** The last value given is what the option holds after the parse if its reader accepts it, whatever
      came before and whatever follows, as long as that does not give the option again; a rejected
      value is reported and leaves the option alone. */
  lemma LastValueIsRead<V>(
      names: seq<string>, options: map<string, Opt<V>>, lookup: map<char, string>, prog: string,
      pre: seq<string>, name: string, value: string, post: seq<string>)
    requires AddShorts(names, options, map[]) == Table(lookup)
    requires AtBoundary(lookup, State(options, [], []), pre)
    requires '=' !in name && name in options && options[name].HasValue()
    requires !Given(lookup, State(options, [], []), post, name)
    ensures var s := Rounds(lookup, State(options, [], []), pre);
      var t := Parsed(names, options, [prog] + pre + (["--" + name + "=" + value] + post)).state;
      && s.TakesValue(name) && name in t.options
      && (match options[name].reader(value)
          case Some(v) => t.options[name] == s.options[name].(has := true, actual := v)
          case None =>
            t.options[name] == s.options[name] && "option value is invalid: --" + name + "=" + value in t.errors)
  {
    var s0 := State(options, [], []);
    var s := Rounds(lookup, s0, pre);
    var arg := "--" + name + "=" + value;
    TableFinished(names, options, lookup);
    LongParts(name, value);
    hide Parsed, AddShorts, Missing, StartsWith, IndexOfEquals, Given, Clean;
    ParsedRounds(names, options, lookup, prog, pre, [arg] + post);
    RoundsSplit(lookup, s0, pre, []);
    assert s0.TakesValue(name);
    assert ([arg] + post)[1..] == post;
    var u := s.SetTo(name, value);
    assert Round(lookup, s, [arg] + post) == (u, 1);
    SetToKinds(s, name, value);
    RestKept(lookup, s0, s, post, name);
    RestKept(lookup, s, u, post, name);
    LoopEffect(lookup, u, post, name);
    if s.options[name].reader(value).None? {
      assert u.errors[|s.errors|] == "option value is invalid: --" + name + "=" + value;
      assert Rounds(lookup, u, post).errors[|s.errors|] == u.errors[|s.errors|];
    }
  }

  /** When a parse succeeds, by conditions on the options and the arguments: no two options share a
      short name, every round is clean, and every required option was set before or is given. */
  lemma ParseSucceedsIff<V>(names: seq<string>, options: map<string, Opt<V>>, argv: seq<string>)
    requires forall i, j :: 0 <= i < j < |names| ==> names[i] != names[j]
    requires forall i :: 0 <= i < |names| ==> names[i] in options
    ensures Parsed(names, options, argv).ok <==>
      && argv != []
      && (forall i, j :: !Clash(names, options, i, j))
      && var lookup, s := AddShorts(names, options, map[]), State(options, [], []);
      && lookup.Table? && Clean(lookup.names, s, argv[1..])
      && forall i :: 0 <= i < |names| && options[names[i]].Valued? && options[names[i]].need ==>
           options[names[i]].has || Given(lookup.names, s, argv[1..], names[i])
  {
    LookupIs(names, options);
    var r := AddShorts(names, options, map[]);
    hide AddShorts, Rounds, Missing, Given, Clean, Clash;
    if argv != [] && r.Table? {
      var s := State(options, [], []);
      var t := Rounds(r.names, s, argv[1..]);
      TableFinished(names, options, r.names);
      MissingIff(names, t.options);
      LoopEffect(r.names, s, argv[1..], "");
      forall i | 0 <= i < |names|
        ensures names[i] in t.options
        ensures t.options[names[i]].Satisfied() <==>
          (options[names[i]].Valued? && options[names[i]].need ==>
             options[names[i]].has || Given(r.names, s, argv[1..], names[i]))
      {
        LoopEffect(r.names, s, argv[1..], names[i]);
        assert s.TakesValue(names[i]) <==> t.TakesValue(names[i]);
      }
    }
  }
}
