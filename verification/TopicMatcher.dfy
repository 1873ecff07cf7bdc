/**
 Matching a topic name against a subscription's topic filter: the two-pointer scan
 over characters, the level-by-level meaning it has for well-formed filters, and how
 that meaning relates to section 4.7 of MQTT 3.1.1 (its rule for names that start
 with `$` is not part of this model: the code has no such rule).
 */
module TopicMatcher {

  // ---- Levels

  /** The levels of a topic: the pieces between the '/' separators, possibly empty. */
  function Split(s: string): (levels: seq<string>)
    ensures |levels| > 0
  {
    if s == "" then [""]
    else
      var rest := Split(s[1..]);
      if s[0] == '/' then [""] + rest else [[s[0]] + rest[0]] + rest[1..]
  }

  predicate Literal(level: string) {
    '+' !in level && '#' !in level
  }

  /** Section 4.7.1: '+' and '#' occupy whole levels and '#' is the last one. */
  predicate WellFormedLevels(filter: seq<string>) {
    filter != [] ==>
      && (Literal(filter[0]) || filter[0] == "+" || (filter[0] == "#" && |filter| == 1))
      && WellFormedLevels(filter[1..])
  }

  predicate WellFormed(filter: string) {
    WellFormedLevels(Split(filter))
  }

  /** What the code means: a wildcard level needs a non-empty level to stand against. */
  predicate LevelsMatch(filter: seq<string>, name: seq<string>) {
    if filter == [] then name == []
    else if name == [] then false
    else if filter[0] == "#" && |filter| == 1 then name[0] != ""
    else if filter[0] == "+" then name[0] != "" && LevelsMatch(filter[1..], name[1..])
    else filter[0] == name[0] && LevelsMatch(filter[1..], name[1..])
  }

  /** What section 4.7.1 says: '+' stands for one level of any length, '#' for any number of
      levels including none. */
  predicate StandardMatch(filter: seq<string>, name: seq<string>) {
    if filter == [] then name == []
    else if filter[0] == "#" && |filter| == 1 then true
    else if name == [] then false
    else (filter[0] == "+" || filter[0] == name[0]) && StandardMatch(filter[1..], name[1..])
  }

  // ---- The scan

  /** What is left of the name when its current level has been skipped. */
  function SkipLevel(name: string): (rest: string)
    ensures |rest| <= |name|
  {
    if name == "" || name[0] == '/' then name else SkipLevel(name[1..])
  }

  /** The scan from a position in each string, one round of the outer loop at a time. */
  predicate Scan(filter: string, name: string)
    decreases |filter|
  {
    if filter == "" || name == "" then filter == "" && name == ""
    else if name[0] == '/' && filter[0] != '/' then false
    else if filter[0] != '+' && filter[0] != '#' && filter[0] != name[0] then false
    else if filter[0] == '+' then Scan(filter[1..], SkipLevel(name))
    else if filter[0] == '#' then Scan(filter[1..], "")
    else Scan(filter[1..], name[1..])
  }

  /** `filter` is a C string, so it holds no NUL and the scan sees one after its last character;
      the name is delimited by its length. */
  method IsTopicMatched(filter: string, name: string) returns (matched: bool)
    requires '\0' !in filter
    ensures matched <==> Scan(filter, name)
    ensures WellFormed(filter) ==> (matched <==> LevelsMatch(Split(filter), Split(name)))
  {
    hide *;
    var f, n := 0, 0;
    ghost var answer := Scan(filter, name);
    assert filter[0..] == filter && name[0..] == name;
    while f < |filter| && n < |name|
      invariant 0 <= f <= |filter| && 0 <= n <= |name|
      invariant answer == Scan(filter[f..], name[n..])
      decreases |filter| - f
    {
      ScanStep(filter, f, name, n);
      if name[n] == '/' && filter[f] != '/' {
        break;
      }
      if filter[f] != '+' && filter[f] != '#' && filter[f] != name[n] {
        break;
      }
      if filter[f] == '+' {
        var nextPos := n + 1;
        while nextPos < |name| && name[nextPos] != '/'
          invariant nextPos == n + 1 && n < |name|
          invariant SkipLevel(name[n + 1..]) == SkipLevel(name[nextPos..])
          invariant answer == Scan(filter[f + 1..], SkipLevel(name[n + 1..]))
          decreases |name| - n
        {
          SkipStep(name, n + 1);
          n := n + 1;
          nextPos := n + 1;
        }
        SkipStep(name, n + 1);
      } else if filter[f] == '#' {
        n := |name| - 1;
        assert name[|name|..] == "";
      }
      f := f + 1;
      n := n + 1;
    }
    matched := n == |name| && f == |filter|;
    ScanEnds(filter, f, name, n);
    if WellFormed(filter) {
      ScanIsLevelsMatch(filter, name);
    }
  }

  lemma ScanStep(filter: string, f: nat, name: string, n: nat)
    requires f < |filter| && n < |name|
    ensures Scan(filter[f..], name[n..]) ==
            if name[n] == '/' && filter[f] != '/' then false
            else if filter[f] != '+' && filter[f] != '#' && filter[f] != name[n] then false
            else if filter[f] == '+' then Scan(filter[f + 1..], SkipLevel(name[n + 1..]))
            else if filter[f] == '#' then Scan(filter[f + 1..], "")
            else Scan(filter[f + 1..], name[n + 1..])
  {
  }

  lemma SkipStep(name: string, n: nat)
    requires n <= |name|
    ensures SkipLevel(name[n..]) == if n == |name| || name[n] == '/' then name[n..] else SkipLevel(name[n + 1..])
  {
  }

  lemma ScanEnds(filter: string, f: nat, name: string, n: nat)
    requires f <= |filter| && n <= |name|
    requires f < |filter| && n < |name| ==> !Scan(filter[f..], name[n..])
    ensures Scan(filter[f..], name[n..]) <==> n == |name| && f == |filter|
  {
  }

  // ---- The scan matches levels

  /** Skipping a level removes the first piece of the split. */
  lemma {:induction false} SplitSkip(name: string)
    ensures Split(SkipLevel(name)) == [""] + Split(name)[1..]
  {
    if name != "" && name[0] != '/' {
      SplitSkip(name[1..]);
    }
  }

  /** While the current filter level is literal, the scan compares it with the current name level. */
  lemma {:induction false} ScanIsLevelsMatch(filter: string, name: string)
    requires WellFormed(filter)
    ensures Scan(filter, name) <==> LevelsMatch(Split(filter), Split(name))
    decreases |filter|, 1
  {
    var fs, ns := Split(filter), Split(name);
    SplitHead(filter);
    if Literal(fs[0]) {
      ScanLiteral(filter, name);
    } else if fs[0] == "+" {
      ScanPlus(filter, name);
    } else {
      ScanHash(filter, name);
    }
  }

  /** The first level is the text up to the first separator. */
  lemma {:induction false} SplitHead(s: string)
    ensures Split(s)[0] <= s
    ensures |Split(s)[0]| < |s| ==> s[|Split(s)[0]|] == '/' && Split(s)[1..] == Split(s[|Split(s)[0]| + 1..])
    ensures |Split(s)[0]| == |s| ==> |Split(s)| == 1
    ensures '/' !in Split(s)[0]
  {
    if s != "" && s[0] != '/' {
      SplitHead(s[1..]);
      var k := |Split(s)[0]|;
      if k < |s| {
        assert s[1..][k..] == s[k + 1..];
      }
    }
  }

  lemma ScanHash(filter: string, name: string)
    requires WellFormed(filter) && Split(filter)[0] == "#"
    ensures Scan(filter, name) <==> LevelsMatch(Split(filter), Split(name))
  {
  }

  lemma {:induction false} ScanPlus(filter: string, name: string)
    requires WellFormed(filter) && Split(filter)[0] == "+"
    ensures Scan(filter, name) <==> LevelsMatch(Split(filter), Split(name))
    decreases |filter|, 0
  {
    var fs, ns := Split(filter), Split(name);
    SplitHead(filter);
    SplitHead(name);
    assert filter[0] == '+' && LevelsMatch(fs, ns) == (ns[0] != "" && LevelsMatch(fs[1..], ns[1..]));
    if name != "" && name[0] != '/' {
      SplitAfterPlus(filter);
      ScanIsLevelsMatch(filter[1..], SkipLevel(name));
      SplitSkip(name);
    }
  }

  lemma SplitAfterPlus(filter: string)
    requires WellFormed(filter) && Split(filter)[0] == "+" && filter != "" && filter[0] == '+'
    ensures Split(filter[1..]) == [""] + Split(filter)[1..]
    ensures WellFormed(filter[1..])
  {
  }

  lemma {:induction false} ScanLiteral(filter: string, name: string)
    requires WellFormed(filter) && Literal(Split(filter)[0])
    ensures Scan(filter, name) <==>
            Split(filter)[0] == Split(name)[0] && LevelsMatch(Split(filter)[1..], Split(name)[1..])
    decreases |filter|, 0
  {
    var fs, ns := Split(filter), Split(name);
    if filter == "" {
      SplitHead(name);
    } else if filter[0] == '/' {
      if name != "" && name[0] == '/' {
        ScanIsLevelsMatch(filter[1..], name[1..]);
      }
    } else {
      var gs := Split(filter[1..]);
      assert fs[0] == [filter[0]] + gs[0] && fs[1..] == gs[1..];
      assert Literal(gs[0]) && filter[0] != '+' && filter[0] != '#';
      if name != "" && name[0] != '/' {
        ScanLiteral(filter[1..], name[1..]);
        var ms := Split(name[1..]);
        assert ns[0] == [name[0]] + ms[0] && ns[1..] == ms[1..];
        assert ns[0][1..] == ms[0] && fs[0][1..] == gs[0];
      }
    }
  }

  // ---- Against the standard

  /** Every wildcard of the filter stands against a non-empty level of the name. */
  predicate WildcardsCovered(filter: seq<string>, name: seq<string>) {
    forall i :: 0 <= i < |filter| && (filter[i] == "+" || filter[i] == "#") ==> i < |name| && name[i] != ""
  }

  /** The code accepts a name exactly when section 4.7.1 does and every wildcard has a non-empty
      level to stand against: it is sound for the standard and refuses only the rest. */
  lemma {:induction false} StrictnessExact(filter: seq<string>, name: seq<string>)
    requires WellFormedLevels(filter)
    ensures LevelsMatch(filter, name) <==> StandardMatch(filter, name) && WildcardsCovered(filter, name)
  {
    if filter != [] && name != [] {
      if filter[0] == "#" {
        assert |filter| == 1;
      } else {
        StrictnessExact(filter[1..], name[1..]);
        CoveredCons(filter, name);
      }
    }
  }

  lemma CoveredCons(filter: seq<string>, name: seq<string>)
    requires filter != [] && name != []
    ensures WildcardsCovered(filter, name) <==>
            (filter[0] == "+" || filter[0] == "#" ==> name[0] != "") && WildcardsCovered(filter[1..], name[1..])
  {
  }

  /** The method and section 4.7.1 together. */
  lemma ScanSound(filter: string, name: string)
    requires WellFormed(filter)
    ensures Scan(filter, name) <==>
            StandardMatch(Split(filter), Split(name)) && WildcardsCovered(Split(filter), Split(name))
  {
    ScanIsLevelsMatch(filter, name);
    StrictnessExact(Split(filter), Split(name));
  }

  /** "a/#" takes in "a" by section 4.7.1.2, and does not in the code. */
  lemma ParentNotMatched()
    ensures WellFormed("a/#")
    ensures StandardMatch(Split("a/#"), Split("a")) && !Scan("a/#", "a")
  {
  }

  /** A well-formed filter matches itself as a name, so comparing the strings first, as the
      dispatcher does, lets nothing more through. */
  lemma SelfMatch(filter: string)
    requires WellFormed(filter)
    ensures Scan(filter, filter)
  {
    ScanIsLevelsMatch(filter, filter);
    LevelsSelfMatch(Split(filter));
  }

  lemma {:induction false} LevelsSelfMatch(filter: seq<string>)
    requires WellFormedLevels(filter)
    ensures LevelsMatch(filter, filter)
  {
    if filter != [] {
      LevelsSelfMatch(filter[1..]);
    }
  }
}
