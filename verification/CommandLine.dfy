/** The command line parser of cmdline.h: options by name, short names, clusters of them, values
    attached or in the next argument. */
module CommandLine {
  import opened Bytes
  import Tokenizer

  // ---------------------------------------------------------------------------
  // Options
  // ---------------------------------------------------------------------------

  /** `option_without_value` and `option_with_value`; a short name of 0 is none.  A reader that
      throws is one that gives `None`. */
  datatype Opt<V> =
    | Flag(short: char, has: bool)
    | Valued(short: char, need: bool, has: bool, actual: V, reader: string -> Option<V>)
  {
    predicate HasValue() {
      Valued?
    }

    /** `valid()`. */
    predicate Satisfied() {
      Valued? && need ==> has
    }
  }

  const NO_SHORT: char := '\0'

  /** The parser's state while it works: the options by name, and what it reports. */
  datatype State<V> = State(options: map<string, Opt<V>>, errors: seq<string>, others: seq<string>) {
    function Error(message: string): State<V> {
      this.(errors := errors + [message])
    }

    predicate TakesValue(name: string) {
      name in options && options[name].HasValue()
    }

    /** `set_option(name)`. */
    function Set(name: string): State<V> {
      if name !in options then Error("undefined option: --" + name)
      else
        match options[name]
        case Flag(short, _) => this.(options := options[name := Flag(short, true)])
        case Valued(_, _, _, _, _) => Error("option needs value: --" + name)
    }

    /** `set_option(name, value)`. */
    function SetTo(name: string, value: string): State<V> {
      if name !in options then Error("undefined option: --" + name)
      else
        match options[name]
        case Flag(_, _) => Error("option value is invalid: --" + name + "=" + value)
        case Valued(short, need, _, _, reader) =>
          match reader(value)
          case None => Error("option value is invalid: --" + name + "=" + value)
          case Some(v) => this.(options := options[name := Valued(short, need, true, v, reader)])
    }

    /** A short option that takes no value: one inside a cluster, or the last without one. */
    function SetShort(lookup: map<char, string>, c: char): State<V> {
      if c !in lookup then Error("undefined short option: -" + [c])
      else if lookup[c] == "" then Error("ambiguous short option: -" + [c])
      else Set(lookup[c])
    }

    /** The short options of a cluster but the last, in order. */
    function SetShorts(lookup: map<char, string>, letters: string): State<V>
      decreases |letters|
    {
      if letters == [] then this else SetShort(lookup, letters[0]).SetShorts(lookup, letters[1..])
    }
  }

  /** Parsing changes what options hold, never which there are, whether they take a value or need
      one, and how it is read. */
  ghost predicate SameKinds<V>(a: State<V>, b: State<V>) {
    && a.options.Keys == b.options.Keys
    && (forall name :: a.TakesValue(name) <==> b.TakesValue(name))
    && (forall name :: a.TakesValue(name) ==>
          a.options[name].reader == b.options[name].reader && a.options[name].need == b.options[name].need)
  }

  // ---------------------------------------------------------------------------
  // The argument loop
  // ---------------------------------------------------------------------------

  predicate StartsWith(arg: string, prefix: string) {
    |prefix| <= |arg| && arg[..|prefix|] == prefix
  }

  /** `strchr(s, '=')`. */
  function IndexOfEquals(s: string): (i: nat)
    requires '=' in s
    ensures i < |s| && s[i] == '='
    ensures forall j :: 0 <= j < i ==> s[j] != '='
  {
    if s[0] == '=' then 0 else 1 + IndexOfEquals(s[1..])
  }

  /** One round of the loop over a non-empty rest of the arguments: the new state and the number of
      arguments used, 1 or 2. */
  function Round<V>(lookup: map<char, string>, s: State<V>, args: seq<string>): (r: (State<V>, nat))
    requires args != []
    ensures 1 <= r.1 <= 2 && r.1 <= |args|
  {
    var arg := args[0];
    if StartsWith(arg, "--") then LongRound(s, arg[2..], args)
    else if StartsWith(arg, "-") then
      if |arg| == 1 then (s, 1) else ShortRound(lookup, s, arg[1..], args)
    else (s.(others := s.others + [arg]), 1)
  }

  function LongRound<V>(s: State<V>, body: string, args: seq<string>): (r: (State<V>, nat))
    requires args != []
    ensures 1 <= r.1 <= 2 && r.1 <= |args|
  {
    if '=' in body then
      var i := IndexOfEquals(body);
      (s.SetTo(body[..i], body[i + 1..]), 1)
    else if body !in s.options then (s.Error("undefined option: --" + body), 1)
    else if s.TakesValue(body) then
      if |args| == 1 then (s.Error("option needs value: --" + body), 1) else (s.SetTo(body, args[1]), 2)
    else (s.Set(body), 1)
  }

  function ShortRound<V>(lookup: map<char, string>, s: State<V>, letters: string, args: seq<string>): (r: (State<V>, nat))
    requires args != [] && letters != []
    ensures 1 <= r.1 <= 2 && r.1 <= |args|
  {
    var last := letters[|letters| - 1];
    var t := s.SetShorts(lookup, letters[..|letters| - 1]);
    if last in lookup && lookup[last] != "" && |args| > 1 && t.TakesValue(lookup[last]) then
      (t.SetTo(lookup[last], args[1]), 2)
    else (t.SetShort(lookup, last), 1)
  }

  /** The loop, from some round on. */
  function Rounds<V>(lookup: map<char, string>, s: State<V>, args: seq<string>): State<V>
    decreases |args|
  {
    if args == [] then s
    else
      var r := Round(lookup, s, args);
      Rounds(lookup, r.0, args[r.1..])
  }

  // ---------------------------------------------------------------------------
  // Which arguments belong together
  // ---------------------------------------------------------------------------

  lemma SetKinds<V>(s: State<V>, name: string)
    ensures SameKinds(s, s.Set(name))
  {
  }

  lemma SetToKinds<V>(s: State<V>, name: string, value: string)
    ensures SameKinds(s, s.SetTo(name, value))
  {
  }

  lemma SetShortKinds<V>(lookup: map<char, string>, s: State<V>, c: char)
    ensures SameKinds(s, s.SetShort(lookup, c))
  {
    if c in lookup {
      SetKinds(s, lookup[c]);
    }
  }

  lemma {:induction false} SetShortsKinds<V>(lookup: map<char, string>, s: State<V>, letters: string)
    ensures SameKinds(s, s.SetShorts(lookup, letters))
    decreases |letters|
  {
    hide State.SetShort;
    if letters == [] {
    } else {
      SetShortKinds(lookup, s, letters[0]);
      SetShortsKinds(lookup, s.SetShort(lookup, letters[0]), letters[1..]);
    }
  }

  lemma RoundKinds<V>(lookup: map<char, string>, s: State<V>, args: seq<string>)
    requires args != []
    ensures SameKinds(s, Round(lookup, s, args).0)
  {
    hide State.SetShort, State.Set, State.SetTo, State.SetShorts;
    var arg := args[0];
    if StartsWith(arg, "--") {
      var body := arg[2..];
      if '=' in body {
        var i := IndexOfEquals(body);
        SetToKinds(s, body[..i], body[i + 1..]);
      } else {
        SetKinds(s, body);
        if |args| > 1 {
          SetToKinds(s, body, args[1]);
        }
      }
    } else if StartsWith(arg, "-") && |arg| > 1 {
      var letters := arg[1..];
      var t, last := s.SetShorts(lookup, letters[..|letters| - 1]), letters[|letters| - 1];
      SetShortsKinds(lookup, s, letters[..|letters| - 1]);
      SetShortKinds(lookup, t, last);
      if last in lookup && |args| > 1 {
        SetToKinds(t, lookup[last], args[1]);
      }
    }
  }

  /** The number of arguments a round starting with `arg` uses if there are enough. */
  function Width<V>(lookup: map<char, string>, s: State<V>, arg: string): (w: nat)
    ensures 1 <= w <= 2
  {
    if StartsWith(arg, "--") then
      if '=' !in arg[2..] && s.TakesValue(arg[2..]) then 2 else 1
    else if StartsWith(arg, "-") && |arg| > 1 then
      var last := arg[|arg| - 1];
      if last in lookup && lookup[last] != "" && s.TakesValue(lookup[last]) then 2 else 1
    else 1
  }

  /** A round that has enough arguments ignores whatever follows them. */
  lemma RoundIsLocal<V>(lookup: map<char, string>, s: State<V>, args: seq<string>, post: seq<string>)
    requires args != [] && Width(lookup, s, args[0]) <= |args|
    ensures Round(lookup, s, args + post) == Round(lookup, s, args)
    ensures Round(lookup, s, args).1 == Width(lookup, s, args[0])
  {
    hide State.SetShort, State.Set, State.SetTo, State.SetShorts;
    var arg := args[0];
    assert (args + post)[0] == arg && (|args| > 1 ==> (args + post)[1] == args[1]);
    if !StartsWith(arg, "--") && StartsWith(arg, "-") && |arg| > 1 {
      SetShortsKinds(lookup, s, arg[1..][..|arg| - 2]);
    }
  }

  /** A list of arguments that ends between two rounds, not inside one. */
  predicate AtBoundary<V>(lookup: map<char, string>, s: State<V>, pre: seq<string>)
    decreases |pre|
  {
    pre == [] ||
    var w := Width(lookup, s, pre[0]);
    w <= |pre| && AtBoundary(lookup, s, pre[w..])
  }

  lemma {:induction false} AtBoundaryKinds<V>(lookup: map<char, string>, s: State<V>, t: State<V>, pre: seq<string>)
    requires SameKinds(s, t) && AtBoundary(lookup, s, pre)
    ensures AtBoundary(lookup, t, pre)
    decreases |pre|
  {
    if pre == [] {
    } else {
      AtBoundaryKinds(lookup, s, t, pre[Width(lookup, s, pre[0])..]);
    }
  }

  /** Parsing in two parts, split at a boundary. */
  lemma {:induction false} RoundsSplit<V>(lookup: map<char, string>, s: State<V>, pre: seq<string>, post: seq<string>)
    requires AtBoundary(lookup, s, pre)
    ensures Rounds(lookup, s, pre + post) == Rounds(lookup, Rounds(lookup, s, pre), post)
    ensures SameKinds(s, Rounds(lookup, s, pre))
    decreases |pre|
  {
    hide Round, Width, State.TakesValue;
    if pre == [] {
      assert pre + post == post;
    } else {
      var r := Round(lookup, s, pre);
      RoundIsLocal(lookup, s, pre, post);
      RoundKinds(lookup, s, pre);
      AtBoundaryKinds(lookup, s, r.0, pre[r.1..]);
      RoundsSplit(lookup, r.0, pre[r.1..], post);
      assert (pre + post)[r.1..] == pre[r.1..] + post;
    }
  }

  // ---------------------------------------------------------------------------
  // Rewriting that preserves the parse
  // ---------------------------------------------------------------------------

  lemma LongParts(name: string, value: string)
    requires '=' !in name
    ensures var arg := "--" + name + "=" + value;
      && StartsWith(arg, "--") && '=' in arg[2..] && IndexOfEquals(arg[2..]) == |name|
      && arg[2..][..|name|] == name && arg[2..][|name| + 1..] == value
    ensures StartsWith("--" + name, "--") && ("--" + name)[2..] == name
  {
    var arg := "--" + name + "=" + value;
    var body := arg[2..];
    assert body == name + "=" + value;
    assert body[|name|] == '=';
    assert forall j :: 0 <= j < |name| ==> body[j] == name[j];
    assert IndexOfEquals(body) == |name|;
  }

  /** `--name=value` and `--name` `value` mean the same for an option that takes a value. */
  lemma LongForms<V>(lookup: map<char, string>, s: State<V>, name: string, value: string, post: seq<string>)
    requires '=' !in name && s.TakesValue(name)
    ensures Rounds(lookup, s, ["--" + name + "=" + value] + post) == Rounds(lookup, s, ["--" + name, value] + post)
  {
    LongParts(name, value);
    hide State.SetTo, State.Set, StartsWith, IndexOfEquals;
    var one, two := ["--" + name + "=" + value] + post, ["--" + name, value] + post;
    assert one[1..] == post && two[2..] == post;
    assert Round(lookup, s, one) == (s.SetTo(name, value), 1);
    assert Round(lookup, s, two) == (s.SetTo(name, value), 2);
  }

  /** For any other name, a flag or an undefined one, they do not: with the empty value the first
      form never adds to `others`, the second always does. */
  lemma LongFormsDiffer<V>(lookup: map<char, string>, s: State<V>, name: string)
    requires '=' !in name && !s.TakesValue(name)
    ensures Rounds(lookup, s, ["--" + name + "="]).others == s.others
    ensures Rounds(lookup, s, ["--" + name, ""]).others == s.others + [""]
  {
    LongParts(name, "");
    hide IndexOfEquals;
    var one, two := ["--" + name + "="], ["--" + name, ""];
    assert "--" + name + "=" + "" == "--" + name + "=";
    assert one[1..] == [] && two[1..] == [""] && two[1..][1..] == [];
    var t := Round(lookup, s, two).0;
    assert Round(lookup, s, two) == (t, 1) && t.others == s.others;
    assert Round(lookup, s, one) == (s.SetTo(name, ""), 1);
    assert Rounds(lookup, t, [""]) == t.(others := t.others + [""]);
  }

  /** Each letter of a cluster as an argument of its own. */
  function Separate(letters: string): seq<string> {
    if letters == [] then [] else [['-', letters[0]]] + Separate(letters[1..])
  }

  /** No letter but the last names an option that takes a value, and none is a dash. */
  predicate Separable<V>(lookup: map<char, string>, s: State<V>, letters: string) {
    && letters != [] && '-' !in letters
    && forall k :: 0 <= k < |letters| - 1 && letters[k] in lookup ==> !s.TakesValue(lookup[letters[k]])
  }

  lemma ShortParts(letters: string)
    requires letters != [] && letters[0] != '-'
    ensures var arg := "-" + letters;
      !StartsWith(arg, "--") && StartsWith(arg, "-") && |arg| > 1 && arg[1..] == letters
  {
    var arg := "-" + letters;
    assert arg[1] == letters[0];
    assert arg[..2][1] != '-';
  }

  /** A letter that takes no value, alone and at the front of a cluster. */
  lemma FirstLetter<V>(lookup: map<char, string>, s: State<V>, letters: string, post: seq<string>)
    requires Separable(lookup, s, letters) && |letters| > 1
    ensures var t := s.SetShort(lookup, letters[0]);
      && Rounds(lookup, s, ["-" + letters] + post) == Rounds(lookup, t, ["-" + letters[1..]] + post)
      && Rounds(lookup, s, [['-', letters[0]]] + post) == Rounds(lookup, t, post)
  {
    var c, more, n := letters[0], letters[1..], |letters|;
    var t := s.SetShort(lookup, c);
    ShortParts(letters);
    ShortParts(more);
    ShortParts([c]);
    hide State.SetTo, State.Set, State.SetShort, StartsWith;
    assert more[..n - 2] == letters[..n - 1][1..] && more[n - 2] == letters[n - 1];
    assert s.SetShorts(lookup, letters[..n - 1]) == t.SetShorts(lookup, more[..n - 2]);
    var cluster, shorter, single := ["-" + letters] + post, ["-" + more] + post, ["-" + [c]] + post;
    assert cluster[1..] == post && shorter[1..] == post && single[1..] == post;
    assert |cluster| > 1 ==> cluster[1..][0] == cluster[1] == shorter[1] && cluster[2..] == shorter[2..];
    assert Round(lookup, s, cluster) == Round(lookup, t, shorter);
    assert ['-', c] == "-" + [c];
    assert [c][..0] == [];
    assert Round(lookup, s, single) == (t, 1);
  }

  /** A cluster and its letters one by one mean the same. */
  lemma {:induction false} ClusterForms<V>(lookup: map<char, string>, s: State<V>, letters: string, post: seq<string>)
    requires Separable(lookup, s, letters)
    ensures Rounds(lookup, s, ["-" + letters] + post) == Rounds(lookup, s, Separate(letters) + post)
    decreases |letters|
  {
    hide Rounds, State.SetShort, State.TakesValue;
    if |letters| == 1 {
      assert Separate(letters) == [['-', letters[0]]] && "-" + letters == ['-', letters[0]];
    } else {
      var t, more := s.SetShort(lookup, letters[0]), letters[1..];
      SetShortKinds(lookup, s, letters[0]);
      assert forall k :: 0 <= k < |more| ==> more[k] == letters[k + 1];
      FirstLetter(lookup, s, letters, post);
      FirstLetter(lookup, s, letters, Separate(more) + post);
      ClusterForms(lookup, t, more, post);
      assert Separate(letters) + post == [['-', letters[0]]] + (Separate(more) + post);
    }
  }

  // ---------------------------------------------------------------------------
  // The table of short names
  // ---------------------------------------------------------------------------

  datatype Lookup = Ambiguous(c: char) | Table(names: map<char, string>)

  /** The short name an option contributes to the table, 0 if none. */
  function ShortOf<V>(options: map<string, Opt<V>>, name: string): char {
    if name == "" || name !in options then NO_SHORT else options[name].short
  }

  /** The table loop, over the names in the map's order. */
  function AddShorts<V>(names: seq<string>, options: map<string, Opt<V>>, table: map<char, string>): Lookup {
    if names == [] then Table(table)
    else
      var initial := ShortOf(options, names[0]);
      if initial == NO_SHORT then AddShorts(names[1..], options, table)
      else if initial in table then Ambiguous(initial)
      else AddShorts(names[1..], options, table[initial := names[0]])
  }

  predicate Clash<V>(names: seq<string>, options: map<string, Opt<V>>, i: nat, j: nat) {
    i < j < |names| && ShortOf(options, names[i]) == ShortOf(options, names[j]) != NO_SHORT
  }

  /** A finished table maps exactly the short names to their options, and never to an empty name:
      the two "ambiguous short option" branches of the loop are dead. */
  predicate TableOf<V>(names: seq<string>, options: map<string, Opt<V>>, table: map<char, string>) {
    && (forall c :: c in table ==> table[c] in names && table[c] != "" && c != NO_SHORT && ShortOf(options, table[c]) == c)
    && (forall i :: 0 <= i < |names| && ShortOf(options, names[i]) != NO_SHORT ==>
          ShortOf(options, names[i]) in table && table[ShortOf(options, names[i])] == names[i])
  }

  lemma {:induction false} AddShortsIs<V>(
      done: seq<string>, names: seq<string>, options: map<string, Opt<V>>, table: map<char, string>)
    requires TableOf(done, options, table)
    ensures var r := AddShorts(names, options, table);
      && (r.Table? ==> TableOf(done + names, options, r.names))
      && (r.Ambiguous? ==> exists i, j :: Clash(done + names, options, i, j))
    decreases |names|
  {
    if names == [] {
      assert done + names == done;
    } else {
      var name := names[0];
      var initial := ShortOf(options, name);
      assert done + names == (done + [name]) + names[1..];
      if initial == NO_SHORT {
        AddShortsIs(done + [name], names[1..], options, table);
      } else if initial in table {
        var i :| 0 <= i < |done| && done[i] == table[initial];
        assert Clash(done + names, options, i, |done|);
      } else {
        AddShortsIs(done + [name], names[1..], options, table[initial := name]);
      }
    }
  }

  /** The table is refused exactly when two options share a short name. */
  lemma LookupIs<V>(names: seq<string>, options: map<string, Opt<V>>)
    requires forall i, j :: 0 <= i < j < |names| ==> names[i] != names[j]
    ensures var r := AddShorts(names, options, map[]);
      && (r.Table? ==> TableOf(names, options, r.names))
      && (r.Ambiguous? <==> exists i, j :: Clash(names, options, i, j))
  {
    AddShortsIs([], names, options, map[]);
    assert [] + names == names;
  }

  // ---------------------------------------------------------------------------
  // A whole parse
  // ---------------------------------------------------------------------------

  /** The errors for required options that were not given, in the map's order. */
  function Missing<V>(names: seq<string>, options: map<string, Opt<V>>): seq<string> {
    if names == [] then []
    else
      (if names[0] in options && !options[names[0]].Satisfied() then ["need option: --" + names[0]] else [])
      + Missing(names[1..], options)
  }

  datatype Outcome<V> = Outcome(ok: bool, state: State<V>)

  /** What `parse(argc, argv)` does: `names` are the option names in the map's order. */
  function Parsed<V>(names: seq<string>, options: map<string, Opt<V>>, argv: seq<string>): Outcome<V> {
    if argv == [] then Outcome(false, State(options, ["argument number must be longer than 0"], []))
    else
      match AddShorts(names, options, map[])
      case Ambiguous(c) => Outcome(false, State(options, ["short option '" + [c] + "' is ambiguous"], []))
      case Table(lookup) =>
        var s := Rounds(lookup, State(options, [], []), argv[1..]);
        var errors := s.errors + Missing(names, s.options);
        Outcome(errors == [], s.(errors := errors))
  }

  /** The argument list stops between two options at the end of `pre`. */
  predicate Boundary<V>(names: seq<string>, options: map<string, Opt<V>>, pre: seq<string>) {
    match AddShorts(names, options, map[])
    case Ambiguous(_) => true
    case Table(lookup) => AtBoundary(lookup, State(options, [], []), pre)
  }

  lemma SameOutcome<V>(
      names: seq<string>, options: map<string, Opt<V>>, prog: string,
      pre: seq<string>, a: seq<string>, b: seq<string>, lookup: map<char, string>)
    requires AddShorts(names, options, map[]) == Table(lookup)
    requires AtBoundary(lookup, State(options, [], []), pre)
    requires var s := Rounds(lookup, State(options, [], []), pre);
      Rounds(lookup, s, a) == Rounds(lookup, s, b)
    ensures Parsed(names, options, [prog] + pre + a) == Parsed(names, options, [prog] + pre + b)
  {
    hide Rounds, Missing;
    RoundsSplit(lookup, State(options, [], []), pre, a);
    RoundsSplit(lookup, State(options, [], []), pre, b);
    assert ([prog] + pre + a)[1..] == pre + a && ([prog] + pre + b)[1..] == pre + b;
  }

  /** `--name=value` can be written `--name` `value`, for an option that takes a value, between any
      other arguments: same option states, rest, errors and result. */
  lemma ValueFormsAgree<V>(
      names: seq<string>, options: map<string, Opt<V>>, prog: string,
      pre: seq<string>, name: string, value: string, post: seq<string>)
    requires '=' !in name && name in options && options[name].HasValue()
    requires Boundary(names, options, pre)
    ensures Parsed(names, options, [prog] + pre + (["--" + name + "=" + value] + post))
         == Parsed(names, options, [prog] + pre + (["--" + name, value] + post))
  {
    match AddShorts(names, options, map[]) {
      case Ambiguous(_) =>
      case Table(lookup) =>
        var s0 := State(options, [], []);
        var s := Rounds(lookup, s0, pre);
        hide Rounds, Parsed, AddShorts;
        RoundsSplit(lookup, s0, pre, []);
        assert s0.TakesValue(name);
        LongForms(lookup, s, name, value, post);
        SameOutcome(names, options, prog, pre, ["--" + name + "=" + value] + post, ["--" + name, value] + post, lookup);
    }
  }

  ghost predicate FormsAgree<V>(
      names: seq<string>, options: map<string, Opt<V>>, prog: string, name: string, value: string)
  {
    Parsed(names, options, [prog] + ["--" + name + "=" + value]) == Parsed(names, options, [prog] + ["--" + name, value])
  }

  /** The two forms agree for every value if and only if the option takes one, unless the parse
      stops before the loop. */
  lemma ValueFormsIff<V>(names: seq<string>, options: map<string, Opt<V>>, prog: string, name: string)
    requires '=' !in name && AddShorts(names, options, map[]).Table?
    ensures (name in options && options[name].HasValue())
       <==> forall value :: FormsAgree(names, options, prog, name, value)
  {
    hide AddShorts, Parsed, Rounds, Missing;
    var lookup, s := AddShorts(names, options, map[]).names, State(options, [], []);
    if s.TakesValue(name) {
      forall value
        ensures FormsAgree(names, options, prog, name, value)
      {
        ValueFormsAgree(names, options, prog, [], name, value, []);
        assert [prog] + [] + (["--" + name + "=" + value] + []) == [prog] + ["--" + name + "=" + value];
        assert [prog] + [] + (["--" + name, value] + []) == [prog] + ["--" + name, value];
      }
    } else {
      var one, two := ["--" + name + "="], ["--" + name, ""];
      LongFormsDiffer(lookup, s, name);
      ParsedRounds(names, options, lookup, prog, [], one);
      ParsedRounds(names, options, lookup, prog, [], two);
      NoRounds(lookup, s);
      assert [prog] + [] + one == [prog] + one && [prog] + [] + two == [prog] + two;
      assert "--" + name + "=" + "" == "--" + name + "=";
      assert |Parsed(names, options, [prog] + one).state.others| < |Parsed(names, options, [prog] + two).state.others|;
      assert !FormsAgree(names, options, prog, name, "");
    }
  }

  lemma NoRounds<V>(lookup: map<char, string>, s: State<V>)
    ensures Rounds(lookup, s, []) == s
  {
  }

  /** A cluster can be written as single letters, if only its last letter may take a value. */
  lemma ClusterFormsAgree<V>(
      names: seq<string>, options: map<string, Opt<V>>, prog: string,
      pre: seq<string>, letters: string, post: seq<string>)
    requires letters != [] && '-' !in letters && Boundary(names, options, pre)
    requires forall i, k | 0 <= i < |names| && 0 <= k < |letters| - 1 ::
      ShortOf(options, names[i]) == letters[k] != NO_SHORT ==> !options[names[i]].HasValue()
    ensures Parsed(names, options, [prog] + pre + (["-" + letters] + post))
         == Parsed(names, options, [prog] + pre + (Separate(letters) + post))
  {
    match AddShorts(names, options, map[]) {
      case Ambiguous(_) =>
        assert Parsed(names, options, [prog] + pre + (["-" + letters] + post)).state
            == Parsed(names, options, [prog] + pre + (Separate(letters) + post)).state;
      case Table(lookup) =>
        AddShortsIs([], names, options, map[]);
        assert [] + names == names;
        var s0 := State(options, [], []);
        var s := Rounds(lookup, s0, pre);
        hide Rounds, Parsed, AddShorts, Separate;
        RoundsSplit(lookup, s0, pre, []);
        forall k | 0 <= k < |letters| - 1 && letters[k] in lookup
          ensures !s.TakesValue(lookup[letters[k]])
        {
          var i :| 0 <= i < |names| && names[i] == lookup[letters[k]];
          assert ShortOf(options, names[i]) == letters[k];
          assert !s0.TakesValue(lookup[letters[k]]);
        }
        ClusterForms(lookup, s, letters, post);
        SameOutcome(names, options, prog, pre, ["-" + letters] + post, Separate(letters) + post, lookup);
    }
  }

  /** The closing loop reports nothing exactly when every required option was given. */
  lemma {:induction false} MissingIff<V>(names: seq<string>, options: map<string, Opt<V>>)
    ensures Missing(names, options) == []
       <==> forall i :: 0 <= i < |names| && names[i] in options ==> options[names[i]].Satisfied()
  {
    if names == [] {
    } else {
      MissingIff(names[1..], options);
      assert forall i :: 0 <= i < |names| ==> i == 0 || names[i] == names[1..][i - 1];
      assert forall i :: 0 <= i < |names[1..]| ==> names[1..][i] == names[i + 1];
    }
  }

  predicate Plain(args: seq<string>) {
    forall k :: 0 <= k < |args| ==> !StartsWith(args[k], "-")
  }

  lemma TwoDashes(arg: string)
    ensures StartsWith(arg, "--") ==> StartsWith(arg, "-")
  {
    if StartsWith(arg, "--") {
      assert arg[..1] == arg[..2][..1];
    }
  }

  /** Arguments without a dash go to `rest()`, in order, and change nothing else. */
  lemma {:induction false} PlainArguments<V>(lookup: map<char, string>, s: State<V>, args: seq<string>)
    requires Plain(args)
    ensures Rounds(lookup, s, args) == s.(others := s.others + args)
    decreases |args|
  {
    if args == [] {
      assert s.others + args == s.others;
    } else {
      var t := s.(others := s.others + [args[0]]);
      TwoDashes(args[0]);
      PlainArguments(lookup, t, args[1..]);
      assert s.others + [args[0]] + args[1..] == s.others + args;
    }
  }

  /** A parse that gets as far as the loop. */
  lemma ParsedRounds<V>(
      names: seq<string>, options: map<string, Opt<V>>, lookup: map<char, string>, prog: string,
      pre: seq<string>, post: seq<string>)
    requires AddShorts(names, options, map[]) == Table(lookup)
    requires AtBoundary(lookup, State(options, [], []), pre)
    ensures var u := Rounds(lookup, Rounds(lookup, State(options, [], []), pre), post);
      Parsed(names, options, [prog] + pre + post).state == u.(errors := u.errors + Missing(names, u.options))
  {
    hide Rounds, Missing;
    RoundsSplit(lookup, State(options, [], []), pre, post);
    assert ([prog] + pre + post)[1..] == pre + post;
  }

  /** A value the reader accepts is what the option holds after the parse, whatever came before it
      on the command line, and a rejected one is reported. */
  lemma GivenValueIsRead<V>(
      names: seq<string>, options: map<string, Opt<V>>, lookup: map<char, string>, prog: string,
      pre: seq<string>, name: string, value: string, post: seq<string>)
    requires AddShorts(names, options, map[]) == Table(lookup)
    requires AtBoundary(lookup, State(options, [], []), pre) && Plain(post)
    requires '=' !in name && name in options && options[name].HasValue()
    ensures var s := Rounds(lookup, State(options, [], []), pre);
      var t := Parsed(names, options, [prog] + pre + (["--" + name + "=" + value] + post)).state;
      && s.TakesValue(name) && t.others == s.others + post
      && (match s.options[name].reader(value)
          case Some(v) => t.options == s.options[name := s.options[name].(has := true, actual := v)]
          case None => t.options == s.options && "option value is invalid: --" + name + "=" + value in t.errors)
  {
    var s0 := State(options, [], []);
    var s := Rounds(lookup, s0, pre);
    var arg := "--" + name + "=" + value;
    LongParts(name, value);
    hide Parsed, AddShorts, Missing, StartsWith, IndexOfEquals, Plain;
    ParsedRounds(names, options, lookup, prog, pre, [arg] + post);
    RoundsSplit(lookup, s0, pre, []);
    assert s0.TakesValue(name);
    assert ([arg] + post)[1..] == post;
    var u := s.SetTo(name, value);
    assert Round(lookup, s, [arg] + post) == (u, 1);
    PlainArguments(lookup, u, post);
    if s.options[name].reader(value).None? {
      assert u.errors[|s.errors|] == "option value is invalid: --" + name + "=" + value;
    }
  }

  // ---------------------------------------------------------------------------
  // The parser object
  // ---------------------------------------------------------------------------

  /** `parser`: the map of options keeps `names` in its own order. */
  class Parser<V> {
    const names: seq<string>
    var options: map<string, Opt<V>>
    var errors: seq<string>
    var others: seq<string>
    var progName: string

    constructor (names: seq<string>, options: map<string, Opt<V>>)
      ensures this.names == names && this.options == options
      ensures errors == [] && others == [] && progName == ""
    {
      this.names, this.options, errors, others, progName := names, options, [], [], "";
    }

    function Snapshot(): State<V>
      reads this
    {
      State(options, errors, others)
    }

    method AddError(message: string)
      modifies this`errors
      ensures Snapshot() == old(Snapshot()).Error(message)
    {
      errors := errors + [message];
    }

    /** `set_option(name)`. */
    method SetOption(name: string)
      modifies this`options, this`errors
      ensures Snapshot() == old(Snapshot()).Set(name)
    {
      if name !in options {
        AddError("undefined option: --" + name);
        return;
      }
      match options[name] {
        case Flag(short, _) => options := options[name := Flag(short, true)];
        case Valued(_, _, _, _, _) => AddError("option needs value: --" + name);
      }
    }

    /** `set_option(name, value)`. */
    method SetOptionTo(name: string, value: string)
      modifies this`options, this`errors
      ensures Snapshot() == old(Snapshot()).SetTo(name, value)
    {
      if name !in options {
        AddError("undefined option: --" + name);
        return;
      }
      match options[name] {
        case Flag(_, _) => AddError("option value is invalid: --" + name + "=" + value);
        case Valued(short, need, _, _, reader) =>
          match reader(value) {
            case None => AddError("option value is invalid: --" + name + "=" + value);
            case Some(v) => options := options[name := Valued(short, need, true, v, reader)];
          }
      }
    }

    method SetShortOption(lookup: map<char, string>, c: char)
      modifies this`options, this`errors
      ensures Snapshot() == old(Snapshot()).SetShort(lookup, c)
    {
      if c !in lookup {
        AddError("undefined short option: -" + [c]);
      } else if lookup[c] == "" {
        AddError("ambiguous short option: -" + [c]);
      } else {
        SetOption(lookup[c]);
      }
    }

    /** The branch of the loop for `--name` and `--name=value`. */
    method ParseLong(argv: seq<string>, i0: nat) returns (i: nat)
      requires i0 < |argv| && StartsWith(argv[i0], "--")
      modifies this`options, this`errors
      ensures i0 < i <= |argv|
      ensures LongRound(old(Snapshot()), argv[i0][2..], argv[i0..]) == (Snapshot(), i - i0)
    {
      i := i0 + 1;
      var body := argv[i0][2..];
      if '=' in body {
        var p := IndexOfEquals(body);
        SetOptionTo(body[..p], body[p + 1..]);
      } else if body !in options {
        AddError("undefined option: --" + body);
      } else if options[body].HasValue() {
        if i >= |argv| {
          AddError("option needs value: --" + body);
        } else {
          SetOptionTo(body, argv[i]);
          i := i + 1;
        }
      } else {
        SetOption(body);
      }
    }

    /** The branch for a cluster of short options, with its inner loop. */
    method ParseShort(lookup: map<char, string>, argv: seq<string>, i0: nat) returns (i: nat)
      requires i0 < |argv| && |argv[i0]| > 1
      modifies this`options, this`errors
      ensures i0 < i <= |argv|
      ensures ShortRound(lookup, old(Snapshot()), argv[i0][1..], argv[i0..]) == (Snapshot(), i - i0)
    {
      i := i0 + 1;
      var arg := argv[i0];
      ghost var letters := arg[1..];
      ghost var front := letters[..|letters| - 1];
      var last := arg[1];
      var j := 2;
      assert front[0..] == front;
      while j < |arg|
        invariant 2 <= j <= |arg| && last == arg[j - 1]
        invariant Snapshot().SetShorts(lookup, front[j - 2..]) == old(Snapshot()).SetShorts(lookup, front)
      {
        assert front[j - 2..][0] == arg[j - 1] && front[j - 2..][1..] == front[j - 1..];
        last := arg[j];
        SetShortOption(lookup, arg[j - 1]);
        j := j + 1;
      }
      assert front[j - 2..] == [] && last == letters[|letters| - 1];
      if last in lookup && lookup[last] != "" && i < |argv| && lookup[last] in options && options[lookup[last]].HasValue() {
        SetOptionTo(lookup[last], argv[i]);
        i := i + 1;
      } else {
        SetShortOption(lookup, last);
      }
    }

    /** The table of short names; `None` stands for the early return on an ambiguous one. */
    method BuildLookup() returns (lookup: Option<map<char, string>>)
      modifies this`errors
      ensures match AddShorts(names, options, map[])
        case Table(table) => lookup == Some(table) && errors == old(errors)
        case Ambiguous(c) => lookup == None && errors == old(errors) + ["short option '" + [c] + "' is ambiguous"]
    {
      var table: map<char, string> := map[];
      var n := 0;
      assert names[0..] == names;
      while n < |names|
        invariant n <= |names| && errors == old(errors)
        invariant AddShorts(names[n..], options, table) == AddShorts(names, options, map[])
      {
        assert names[n..][1..] == names[n + 1..];
        var initial := ShortOf(options, names[n]);
        if initial != NO_SHORT {
          if initial in table {
            AddError("short option '" + [initial] + "' is ambiguous");
            return None;
          }
          table := table[initial := names[n]];
        }
        n := n + 1;
      }
      lookup := Some(table);
    }

    /** One round of the argument loop. */
    method ParseRound(lookup: map<char, string>, argv: seq<string>, i0: nat) returns (i: nat)
      requires i0 < |argv|
      modifies this`options, this`errors, this`others
      ensures i0 < i <= |argv|
      ensures Round(lookup, old(Snapshot()), argv[i0..]) == (Snapshot(), i - i0)
    {
      hide LongRound, ShortRound;
      i := i0 + 1;
      if StartsWith(argv[i0], "--") {
        i := ParseLong(argv, i0);
      } else if StartsWith(argv[i0], "-") {
        if |argv[i0]| > 1 {
          i := ParseShort(lookup, argv, i0);
        }
      } else {
        others := others + [argv[i0]];
      }
    }

    /** The argument loop. */
    method ParseRounds(lookup: map<char, string>, argv: seq<string>)
      requires argv != []
      modifies this`options, this`errors, this`others
      ensures Snapshot() == Rounds(lookup, old(Snapshot()), argv[1..])
    {
      hide Round;
      var i := 1;
      while i < |argv|
        invariant 1 <= i <= |argv|
        invariant Rounds(lookup, Snapshot(), argv[i..]) == Rounds(lookup, old(Snapshot()), argv[1..])
      {
        ghost var args, from := argv[i..], i;
        i := ParseRound(lookup, argv, i);
        assert args[i - from..] == argv[i..];
      }
      assert argv[i..] == [];
    }

    /** `parse(argc, argv)`. */
    method Parse(argv: seq<string>) returns (ok: bool)
      modifies this
      ensures Outcome(ok, Snapshot()) == Parsed(names, old(options), argv)
      ensures progName == if argv != [] && old(progName) == "" then argv[0] else old(progName)
    {
      hide Rounds, Missing, AddShorts;
      errors, others := [], [];
      if |argv| < 1 {
        AddError("argument number must be longer than 0");
        return false;
      }
      if progName == "" {
        progName := argv[0];
      }
      var lookup := BuildLookup();
      if lookup.None? {
        return false;
      }
      ParseRounds(lookup.value, argv);
      ReportMissing();
      ok := |errors| == 0;
    }

    /** `parse(const std::string &)`: the errors of a text that does not split are added to what
        there is; a text that is the join of an argument list, each argument escaped or in quotes,
        parses as that list. */
    method ParseText(arg: string) returns (ok: bool)
      modifies this
      ensures match Tokenizer.Scan(arg, false, "")
        case Args(argv) => Outcome(ok, Snapshot()) == Parsed(names, old(options), argv)
        case Dangling =>
          !ok && Snapshot() == old(Snapshot()).Error("unexpected occurrence of '\\' at end of string")
        case Unclosed => !ok && Snapshot() == old(Snapshot()).Error("quote is not closed")
      ensures forall argv, quoted | |quoted| == |argv| && arg == Tokenizer.Join(argv, quoted) ::
        (argv == [] || argv[|argv| - 1] != "") ==> Outcome(ok, Snapshot()) == Parsed(names, old(options), argv)
    {
      hide Parsed;
      forall argv, quoted | |quoted| == |argv| && arg == Tokenizer.Join(argv, quoted)
        ensures (argv == [] || argv[|argv| - 1] != "") ==> Tokenizer.Scan(arg, false, "") == Tokenizer.Args(argv)
      {
        Tokenizer.RoundTripIff(argv, quoted);
      }
      var tokens := Tokenizer.Split(arg);
      match tokens {
        case Dangling =>
          AddError("unexpected occurrence of '\\' at end of string");
          ok := false;
        case Unclosed =>
          AddError("quote is not closed");
          ok := false;
        case Args(argv) => ok := Parse(argv);
      }
    }

    /** The closing loop over the options. */
    method ReportMissing()
      modifies this`errors
      ensures errors == old(errors) + Missing(names, options)
    {
      var n := 0;
      assert names[0..] == names;
      while n < |names|
        invariant n <= |names|
        invariant errors + Missing(names[n..], options) == old(errors) + Missing(names, options)
      {
        assert names[n..][1..] == names[n + 1..];
        ghost var before := errors;
        if names[n] in options && !options[names[n]].Satisfied() {
          AddError("need option: --" + names[n]);
          assert errors == before + ["need option: --" + names[n]];
        }
        n := n + 1;
      }
      assert names[n..] == [];
    }
  }
}
