/** When a cluster of short options means the same as its letters one by one: exactly when no letter
    but the last takes a value. */
module Clusters {
  import opened CommandLine

  /** A finished table of short names has no ambiguous entries. */
  predicate Finished(lookup: map<char, string>) {
    forall c :: c in lookup ==> lookup[c] != ""
  }

  /** A letter that names an option with a value. */
  predicate Valued<V>(lookup: map<char, string>, s: State<V>, c: char) {
    c in lookup && s.TakesValue(lookup[c])
  }

  // ---------------------------------------------------------------------------
  // Counting the errors for missing values
  // ---------------------------------------------------------------------------

  predicate NeedsValue(error: string) {
    StartsWith(error, "option needs value: --")
  }

  function Count(errors: seq<string>): nat {
    if errors == [] then 0
    else
      var last := errors[|errors| - 1];
      Count(errors[..|errors| - 1]) + if NeedsValue(last) then 1 else 0
  }

  lemma CountAppend(errors: seq<string>, error: string)
    ensures Count(errors + [error]) == Count(errors) + if NeedsValue(error) then 1 else 0
  {
    assert (errors + [error])[..|errors|] == errors;
  }

  /** An error that starts differently is not one of them. */
  lemma OtherError(error: string, k: nat)
    requires k < |error| && k < 22 && error[k] != "option needs value: --"[k]
    ensures !NeedsValue(error)
  {
    assert |error| >= 22 ==> error[..22][k] == error[k];
  }

  lemma SetCount<V>(s: State<V>, name: string)
    ensures Count(s.Set(name).errors) == Count(s.errors) + if s.TakesValue(name) then 1 else 0
  {
    hide NeedsValue, Count;
    var undefined, missing := "undefined option: --" + name, "option needs value: --" + name;
    CountAppend(s.errors, undefined);
    CountAppend(s.errors, missing);
    OtherError(undefined, 0);
    assert NeedsValue(missing) by { Missing22(name); }
  }

  lemma Missing22(name: string)
    ensures NeedsValue("option needs value: --" + name)
  {
  }

  lemma SetToCount<V>(s: State<V>, name: string, value: string)
    ensures Count(s.SetTo(name, value).errors) == Count(s.errors)
  {
    hide NeedsValue, Count;
    var undefined, invalid := "undefined option: --" + name, "option value is invalid: --" + name + "=" + value;
    CountAppend(s.errors, undefined);
    CountAppend(s.errors, invalid);
    OtherError(undefined, 0);
    assert invalid[7] == 'v';
    OtherError(invalid, 7);
  }

  lemma SetShortCount<V>(lookup: map<char, string>, s: State<V>, c: char)
    requires Finished(lookup)
    ensures Count(s.SetShort(lookup, c).errors) == Count(s.errors) + if Valued(lookup, s, c) then 1 else 0
  {
    hide NeedsValue, Count, State.Set;
    var undefined := "undefined short option: -" + [c];
    CountAppend(s.errors, undefined);
    OtherError(undefined, 0);
    if c in lookup {
      SetCount(s, lookup[c]);
    }
  }

  /** The letters that name an option with a value. */
  function ValueLetters<V>(lookup: map<char, string>, s: State<V>, letters: string): nat {
    if letters == [] then 0
    else (if Valued(lookup, s, letters[0]) then 1 else 0) + ValueLetters(lookup, s, letters[1..])
  }

  lemma ValuedKept<V>(lookup: map<char, string>, s: State<V>, t: State<V>, c: char)
    requires SameKinds(s, t)
    ensures Valued(lookup, s, c) <==> Valued(lookup, t, c)
  {
  }

  lemma {:induction false} ValueLettersKept<V>(lookup: map<char, string>, s: State<V>, t: State<V>, letters: string)
    requires SameKinds(s, t)
    ensures ValueLetters(lookup, s, letters) == ValueLetters(lookup, t, letters)
  {
    hide SameKinds;
    if letters == [] {
    } else {
      ValuedKept(lookup, s, t, letters[0]);
      ValueLettersKept(lookup, s, t, letters[1..]);
    }
  }

  lemma {:induction false} SetShortsCount<V>(lookup: map<char, string>, s: State<V>, letters: string)
    requires Finished(lookup)
    ensures Count(s.SetShorts(lookup, letters).errors) == Count(s.errors) + ValueLetters(lookup, s, letters)
    decreases |letters|
  {
    hide NeedsValue, Count, State.SetShort, SameKinds, Valued;
    if letters == [] {
    } else {
      var t := s.SetShort(lookup, letters[0]);
      SetShortCount(lookup, s, letters[0]);
      SetShortKinds(lookup, s, letters[0]);
      ValueLettersKept(lookup, s, t, letters[1..]);
      SetShortsCount(lookup, t, letters[1..]);
    }
  }

  /** A cluster at the end of the arguments reports a missing value for every letter that takes
      one. */
  lemma ClusterCount<V>(lookup: map<char, string>, s: State<V>, letters: string)
    requires Finished(lookup) && letters != [] && '-' !in letters
    ensures var last := letters[|letters| - 1];
      Count(Rounds(lookup, s, ["-" + letters]).errors)
      == Count(s.errors) + ValueLetters(lookup, s, letters[..|letters| - 1]) + if Valued(lookup, s, last) then 1 else 0
  {
    var front, last := letters[..|letters| - 1], letters[|letters| - 1];
    ShortParts(letters);
    hide NeedsValue, Count, State.SetShort, State.SetShorts, SameKinds, StartsWith, Valued;
    var t, args := s.SetShorts(lookup, front), ["-" + letters];
    assert Round(lookup, s, args) == (t.SetShort(lookup, last), 1);
    assert args[1..] == [];
    SetShortsCount(lookup, s, front);
    SetShortsKinds(lookup, s, front);
    ValuedKept(lookup, s, t, last);
    SetShortCount(lookup, t, last);
  }

  /** The first round over letters one by one. */
  lemma SeparateRound<V>(lookup: map<char, string>, s: State<V>, letters: string)
    requires Finished(lookup) && letters != [] && '-' !in letters
    ensures var c, all := letters[0], Rounds(lookup, s, Separate(letters));
      if |letters| > 1 && Valued(lookup, s, c) then
        all == Rounds(lookup, s.SetTo(lookup[c], ['-', letters[1]]), Separate(letters[2..]))
      else
        all == Rounds(lookup, s.SetShort(lookup, c), Separate(letters[1..]))
  {
    var c, args := letters[0], Separate(letters);
    ShortParts([c]);
    assert ['-', c] == "-" + [c] && [c][..0] == [];
    assert args[1..] == Separate(letters[1..]);
    if |letters| > 1 {
      assert letters[1..][1..] == letters[2..];
      assert args[1] == ['-', letters[1]] && args[2..] == Separate(letters[1..])[1..] == Separate(letters[2..]);
    }
    hide State.SetShort, State.SetTo, StartsWith;
  }

  /** Letters one by one report at most one, and only if the last letter takes a value. */
  lemma {:induction false} SeparateCount<V>(lookup: map<char, string>, s: State<V>, letters: string)
    requires Finished(lookup) && '-' !in letters
    ensures letters == [] ==> Count(Rounds(lookup, s, Separate(letters)).errors) == Count(s.errors)
    ensures letters != [] ==>
      Count(Rounds(lookup, s, Separate(letters)).errors)
      <= Count(s.errors) + if Valued(lookup, s, letters[|letters| - 1]) then 1 else 0
    decreases |letters|
  {
    hide NeedsValue, Count, State.SetShort, State.SetTo, SameKinds, State.TakesValue, Round;
    if letters == [] {
    } else {
      SeparateRound(lookup, s, letters);
      var c, last := letters[0], letters[|letters| - 1];
      if |letters| > 1 && Valued(lookup, s, c) {
        var t := s.SetTo(lookup[c], ['-', letters[1]]);
        SetToCount(s, lookup[c], ['-', letters[1]]);
        SetToKinds(s, lookup[c], ['-', letters[1]]);
        ValuedKept(lookup, s, t, last);
        SeparateCount(lookup, t, letters[2..]);
      } else {
        var t := s.SetShort(lookup, c);
        SetShortCount(lookup, s, c);
        SetShortKinds(lookup, s, c);
        ValuedKept(lookup, s, t, last);
        SeparateCount(lookup, t, letters[1..]);
      }
    }
  }

  lemma {:induction false} SomeValueLetter<V>(lookup: map<char, string>, s: State<V>, letters: string, k: nat)
    requires k < |letters| && Valued(lookup, s, letters[k])
    ensures ValueLetters(lookup, s, letters) > 0
    decreases k
  {
    if k == 0 {
    } else {
      SomeValueLetter(lookup, s, letters[1..], k - 1);
    }
  }

  // ---------------------------------------------------------------------------
  // The exact condition
  // ---------------------------------------------------------------------------

  /** From any state of the loop, at the end of the arguments, a cluster and its letters one by one
      do the same if and only if no letter but the last takes a value. */
  lemma ClusterIff<V>(lookup: map<char, string>, s: State<V>, letters: string)
    requires Finished(lookup) && letters != [] && '-' !in letters
    ensures Separable(lookup, s, letters)
       <==> Rounds(lookup, s, ["-" + letters]) == Rounds(lookup, s, Separate(letters))
  {
    hide Rounds, Count;
    if Separable(lookup, s, letters) {
      ClusterForms(lookup, s, letters, []);
      assert ["-" + letters] + [] == ["-" + letters] && Separate(letters) + [] == Separate(letters);
    } else {
      var k :| 0 <= k < |letters| - 1 && Valued(lookup, s, letters[k]);
      ClusterCount(lookup, s, letters);
      SeparateCount(lookup, s, letters);
      SomeValueLetter(lookup, s, letters[..|letters| - 1], k);
    }
  }

  ghost predicate ClusterAgrees<V>(
      names: seq<string>, options: map<string, Opt<V>>, prog: string,
      pre: seq<string>, letters: string, post: seq<string>)
  {
    Parsed(names, options, [prog] + pre + (["-" + letters] + post))
    == Parsed(names, options, [prog] + pre + (Separate(letters) + post))
  }

  /** In a whole parse, behind any arguments: the cluster can be written as single letters, whatever
      follows, if and only if no letter but the last takes a value. */
  lemma ClusterFormsIff<V>(
      names: seq<string>, options: map<string, Opt<V>>, lookup: map<char, string>, prog: string,
      pre: seq<string>, letters: string)
    requires AddShorts(names, options, map[]) == Table(lookup)
    requires AtBoundary(lookup, State(options, [], []), pre)
    requires letters != [] && '-' !in letters
    ensures Separable(lookup, State(options, [], []), letters)
       <==> forall post :: ClusterAgrees(names, options, prog, pre, letters, post)
  {
    var s0 := State(options, [], []);
    var s := Rounds(lookup, s0, pre);
    TableFinished(names, options, lookup);
    hide AddShorts, Rounds, Parsed, Missing, Separate;
    RoundsSplit(lookup, s0, pre, []);
    SeparableKept(lookup, s0, s, letters);
    if Separable(lookup, s0, letters) {
      forall post
        ensures ClusterAgrees(names, options, prog, pre, letters, post)
      {
        ClusterForms(lookup, s, letters, post);
        SameOutcome(names, options, prog, pre, ["-" + letters] + post, Separate(letters) + post, lookup);
      }
    } else {
      ClusterIff(lookup, s, letters);
      var one, two := ["-" + letters], Separate(letters);
      assert one + [] == one && two + [] == two;
      if ClusterAgrees(names, options, prog, pre, letters, []) {
        ParsedRounds(names, options, lookup, prog, pre, one);
        ParsedRounds(names, options, lookup, prog, pre, two);
        SameFromSameParse(names, Rounds(lookup, s, one), Rounds(lookup, s, two));
        assert false;
      }
    }
  }

  lemma TableFinished<V>(names: seq<string>, options: map<string, Opt<V>>, lookup: map<char, string>)
    requires AddShorts(names, options, map[]) == Table(lookup)
    ensures Finished(lookup)
  {
    AddShortsIs([], names, options, map[]);
  }

  lemma SeparableKept<V>(lookup: map<char, string>, s: State<V>, t: State<V>, letters: string)
    requires SameKinds(s, t)
    ensures Separable(lookup, s, letters) <==> Separable(lookup, t, letters)
  {
  }

  /** Two parses that report the same came out of the loop in the same state. */
  lemma SameFromSameParse<V>(names: seq<string>, a: State<V>, b: State<V>)
    requires a.(errors := a.errors + Missing(names, a.options)) == b.(errors := b.errors + Missing(names, b.options))
    ensures a == b
  {
    assert a.options == b.options && a.others == b.others;
    var tail := Missing(names, a.options);
    assert a.errors == (a.errors + tail)[..|a.errors|] && b.errors == (b.errors + tail)[..|b.errors|];
    assert |a.errors + tail| == |b.errors + tail|;
  }
}
