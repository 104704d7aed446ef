/**
 Which log messages pass: rules that give categories a level, the last matching rule deciding,
 behind a cache of decisions and a lower bound that spares the lookup.
 */
module CategoryFilter {
  import opened WildCard

  datatype Level = Global | Trace | Debug | Fatal | Error | Warning | Verbose | Info | Unknown

  function Priority(level: Level): (p: nat)
    ensures p <= 7
  {
    match level
    case Fatal => 0
    case Error => 1
    case Warning => 2
    case Info => 3
    case Debug => 4
    case Verbose => 5
    case Trace => 6
    case _ => 7
  }

  datatype Rule = Rule(category: string, level: Level)

  const INT_MAX := 0x7FFF_FFFF

  // ---- Parsing rules -------------------------------------------------------------------------------

  function Name(level: Level): string {
    match level
    case Global => "GLOBAL"
    case Debug => "DEBUG"
    case Info => "INFO"
    case Warning => "WARNING"
    case Error => "ERROR"
    case Fatal => "FATAL"
    case Verbose => "VERBOSE"
    case Trace => "TRACE"
    case Unknown => "UNKNOWN"
  }

  function LowerName(level: Level): string {
    match level
    case Global => "global"
    case Debug => "debug"
    case Info => "info"
    case Warning => "warning"
    case Error => "error"
    case Fatal => "fatal"
    case Verbose => "verbose"
    case Trace => "trace"
    case Unknown => "unknown"
  }

  predicate StartsWith(s: string, level: Level) {
    Name(level) <= s || LowerName(level) <= s
  }

  /** The level whose name the text starts with. */
  function LevelPrefix(s: string): (l: Level)
    ensures l != Unknown ==> StartsWith(s, l)
  {
    if StartsWith(s, Global) then Global
    else if StartsWith(s, Debug) then Debug
    else if StartsWith(s, Info) then Info
    else if StartsWith(s, Warning) then Warning
    else if StartsWith(s, Error) then Error
    else if StartsWith(s, Fatal) then Fatal
    else if StartsWith(s, Verbose) then Verbose
    else if StartsWith(s, Trace) then Trace
    else Unknown
  }

  lemma NameLengths(level: Level)
    ensures |Name(level)| == |LowerName(level)| > 0
  {
  }

  /** Where the parser is: in a category or a level, the category so far and the level read last. */
  datatype State = State(inCategory: bool, category: string, level: Level)

  const START := State(true, "", Unknown)

  /** A rule is complete once it has a category and a known level. */
  function Completed(st: State): seq<Rule> {
    if st.category != "" && st.level != Unknown then [Rule(st.category, st.level)] else []
  }

  /** The state after a comma; an incomplete rule leaves its category standing. */
  function AfterComma(st: State): State {
    if Completed(st) != [] then START else st.(inCategory := true)
  }

  function ParseFrom(s: string, st: State): seq<Rule>
    decreases |s|
  {
    if s == "" then Completed(st)
    else if s[0] == ':' then ParseFrom(s[1..], st.(inCategory := false))
    else if s[0] == ',' then Completed(st) + ParseFrom(s[1..], AfterComma(st))
    else if st.inCategory then ParseFrom(s[1..], st.(category := st.category + [s[0]]))
    else
      var level := LevelPrefix(s);
      NameLengths(level);
      ParseFrom(s[if level == Unknown then 1 else |Name(level)|..], st.(level := level))
  }

  function Parse(s: string): seq<Rule> {
    ParseFrom(s, START)
  }

  // ---- The simple decision -------------------------------------------------------------------------

  /** The priority of the last rule that matches, or -1. */
  function LastMatch(rules: seq<Rule>, category: string): int {
    if rules == [] then -1
    else if Match(category, rules[|rules| - 1].category) then Priority(rules[|rules| - 1].level)
    else LastMatch(rules[..|rules| - 1], category)
  }

  predicate Passes(rules: seq<Rule>, level: Level, category: string) {
    Priority(level) <= LastMatch(rules, category)
  }

  // ---- The filter ------------------------------------------------------------------------------------

  class Filter {
    var rules: seq<Rule>
    var cache: map<string, int>
    var lowest: int

    /** Cached decisions are those of a scan, and no rule lets through less urgent messages than the bound. */
    ghost predicate Valid()
      reads this
    {
      && (forall c :: c in cache ==> cache[c] == LastMatch(rules, c))
      && (forall i :: 0 <= i < |rules| ==> Priority(rules[i].level) <= lowest)
    }

    constructor ()
      ensures Valid() && rules == []
    {
      rules, cache, lowest := [], map[], INT_MAX;
    }

    method ClearCategories()
      modifies this
      ensures Valid() && rules == []
    {
      rules, cache, lowest := [], map[], INT_MAX;
    }

    method Insert(category: string, level: Level)
      requires Valid()
      modifies this
      ensures Valid() && rules == old(rules) + [Rule(category, level)]
    {
      rules := rules + [Rule(category, level)];
      cache := map[];
      if Priority(level) > lowest {
        lowest := Priority(level);
      }
    }

    /** Adds the rules of a text to those there are, or puts them in their place. */
    method SetCategories(categories: string, clear: bool)
      requires Valid()
      modifies this
      ensures Valid() && rules == (if clear then [] else old(rules)) + Parse(categories)
    {
      hide LevelPrefix, LastMatch, Name, LowerName, ParseFrom;
      if clear {
        lowest := 0;
        rules, cache := [], map[];
      }
      ghost var base, total := rules, Parse(categories);
      var inCategory, category, level, i := true, "", Unknown, 0;
      assert categories[0..] == categories && rules + total == base + total;
      while i < |categories|
        invariant 0 <= i <= |categories| && Valid()
        invariant rules + ParseFrom(categories[i..], State(inCategory, category, level)) == base + total
        decreases |categories| - i
      {
        ghost var st, s := State(inCategory, category, level), categories[i..];
        assert s[1..] == categories[i + 1..];
        ParseStep(s, st);
        if categories[i] == ':' {
          inCategory := false;
        } else if categories[i] == ',' {
          inCategory := true;
          Regroup(rules, Completed(st), ParseFrom(s[1..], AfterComma(st)));
          if category != "" && level != Unknown {
            Insert(category, level);
            category, level := "", Unknown;
          }
        } else if inCategory {
          category := category + [categories[i]];
        } else {
          level := LevelPrefix(categories[i..]);
          NameLengths(level);
          if level != Unknown {
            FitsName(s, level);
            assert s[|Name(level)|..] == categories[i + |Name(level)|..];
            i := i + |Name(level)| - 1;
          }
        }
        i := i + 1;
      }
      assert categories[i..] == "";
      ParseEnd(State(inCategory, category, level));
      if category != "" && level != Unknown {
        Insert(category, level);
      }
    }

    method PriorityAllowed(pri: nat, category: string) returns (b: bool)
      requires Valid()
      modifies `cache
      ensures Valid() && b == (pri <= LastMatch(rules, category))
    {
      if category in cache {
        return pri <= cache[category];
      }
      if rules == [] {
        return false;
      }
      var n := |rules|;
      assert rules[..n] == rules;
      while n > 0
        invariant cache == old(cache)
        invariant 0 <= n <= |rules| && LastMatch(rules, category) == LastMatch(rules[..n], category)
      {
        assert rules[..n][..n - 1] == rules[..n - 1];
        n := n - 1;
        var m := WildCardMatch(category, rules[n].category);
        if m {
          var p := Priority(rules[n].level);
          assert p == LastMatch(rules, category);
          cache := cache[category := p];
          return pri <= p;
        }
      }
      assert LastMatch(rules, category) == LastMatch([], category) by { assert rules[..n] == []; }
      cache := cache[category := -1];
      b := false;
    }

    /** The decision on a message, whatever was asked or set before, is that of scanning the rules. */
    method Allowed(level: Level, category: string) returns (b: bool)
      requires Valid()
      modifies `cache
      ensures Valid() && b == Passes(rules, level, category)
    {
      var pri := Priority(level);
      if pri > lowest {
        BoundHolds(rules, lowest, category);
        return false;
      }
      b := PriorityAllowed(pri, category);
    }
  }

  lemma ParseEnd(st: State)
    ensures ParseFrom("", st) == Completed(st)
  {
  }

  lemma ParseStep(s: string, st: State)
    requires s != ""
    ensures s[0] == ':' ==> ParseFrom(s, st) == ParseFrom(s[1..], st.(inCategory := false))
    ensures s[0] == ',' ==> ParseFrom(s, st) == Completed(st) + ParseFrom(s[1..], AfterComma(st))
    ensures s[0] != ':' && s[0] != ',' && st.inCategory ==>
              ParseFrom(s, st) == ParseFrom(s[1..], st.(category := st.category + [s[0]]))
    ensures s[0] != ':' && s[0] != ',' && !st.inCategory ==>
              var level := LevelPrefix(s);
              (if level == Unknown then 1 else |Name(level)|) <= |s| &&
              ParseFrom(s, st) == ParseFrom(s[if level == Unknown then 1 else |Name(level)|..], st.(level := level))
  {
    hide LevelPrefix, Name, LowerName;
    NameLengths(LevelPrefix(s));
    if LevelPrefix(s) != Unknown {
      FitsName(s, LevelPrefix(s));
    }
  }

  lemma Regroup(a: seq<Rule>, b: seq<Rule>, c: seq<Rule>)
    ensures a + (b + c) == a + b + c
  {
  }

  lemma FitsName(s: string, level: Level)
    requires StartsWith(s, level)
    ensures |Name(level)| <= |s|
  {
    NameLengths(level);
  }

  lemma {:induction false} BoundHolds(rules: seq<Rule>, lowest: int, category: string)
    requires forall i :: 0 <= i < |rules| ==> Priority(rules[i].level) <= lowest
    ensures LastMatch(rules, category) <= lowest || LastMatch(rules, category) == -1
    decreases |rules|
  {
    if rules != [] {
      BoundHolds(rules[..|rules| - 1], lowest, category);
    }
  }

  /** Rule i matches and no later one does. */
  ghost predicate Decides(rules: seq<Rule>, i: nat, category: string) {
    && i < |rules| && Match(category, rules[i].category)
    && forall j :: i < j < |rules| ==> !Match(category, rules[j].category)
  }

  lemma DecidesFront(rules: seq<Rule>, i: nat, category: string)
    requires rules != [] && !Match(category, rules[|rules| - 1].category)
    ensures Decides(rules, i, category) <==> Decides(rules[..|rules| - 1], i, category)
  {
    hide Match;
    var n, front := |rules| - 1, rules[..|rules| - 1];
    assert forall j :: 0 <= j < n ==> front[j] == rules[j];
    if Decides(rules, i, category) {
      forall j | i < j < n ensures !Match(category, front[j].category) {
        assert !Match(category, rules[j].category);
      }
    }
  }

  lemma LastDecides(rules: seq<Rule>, i: nat, category: string)
    requires rules != [] && Match(category, rules[|rules| - 1].category) && Decides(rules, i, category)
    ensures i == |rules| - 1
  {
    hide Match;
  }

  /** A message passes exactly when the rule that decides on its category allows its level. */
  lemma {:induction false} PassesMeans(rules: seq<Rule>, level: Level, category: string)
    ensures Passes(rules, level, category) <==>
            exists i: nat :: Decides(rules, i, category) && Priority(level) <= Priority(rules[i].level)
    decreases |rules|
  {
    hide Match, Priority;
    if rules != [] {
      var n := |rules| - 1;
      if Match(category, rules[n].category) {
        assert Decides(rules, n, category);
        forall i: nat | Decides(rules, i, category) ensures i == n {
          LastDecides(rules, i, category);
        }
      } else {
        var front := rules[..n];
        PassesMeans(front, level, category);
        forall i: nat ensures Decides(rules, i, category) <==> Decides(front, i, category) {
          DecidesFront(rules, i, category);
        }
        assert forall i: nat :: Decides(rules, i, category) ==> rules[i] == front[i];
      }
    }
  }

  /** The message levels a rule of each level lets through. */
  function LetThrough(level: Level): set<Level> {
    match level
    case Fatal => {Fatal}
    case Error => {Fatal, Error}
    case Warning => {Fatal, Error, Warning}
    case Info => {Fatal, Error, Warning, Info}
    case Debug => {Fatal, Error, Warning, Info, Debug}
    case Verbose => {Fatal, Error, Warning, Info, Debug, Verbose}
    case Trace => {Fatal, Error, Warning, Info, Debug, Verbose, Trace}
    case _ => {Fatal, Error, Warning, Info, Debug, Verbose, Trace, Global, Unknown}
  }

  /** So the rule that decides lets through what is at least as grave as its level. */
  lemma PassesLevels(rules: seq<Rule>, level: Level, category: string)
    ensures Passes(rules, level, category) <==>
            exists i: nat :: Decides(rules, i, category) && level in LetThrough(rules[i].level)
  {
    hide Match, Passes;
    PassesMeans(rules, level, category);
    forall i: nat | Decides(rules, i, category)
      ensures Priority(level) <= Priority(rules[i].level) <==> level in LetThrough(rules[i].level)
    {
      LevelOrder(level, rules[i].level);
    }
  }

  lemma LevelOrder(level: Level, rule: Level)
    ensures Priority(level) <= Priority(rule) <==> level in LetThrough(rule)
  {
  }

  // ---- Writing rules and reading them back ---------------------------------------------------------

  /** Rules as they are written: categories and level names, comma separated. */
  function Format(rules: seq<Rule>): string {
    if rules == [] then ""
    else if |rules| == 1 then FormatRule(rules[0])
    else FormatRule(rules[0]) + "," + Format(rules[1..])
  }

  function FormatRule(r: Rule): string {
    r.category + ":" + Name(r.level)
  }

  /** A category that can be written: not empty, without the two separators. */
  predicate IsPlain(category: string) {
    category != "" && ':' !in category && ',' !in category
  }

  ghost predicate Writable(rules: seq<Rule>) {
    forall i :: 0 <= i < |rules| ==> IsPlain(rules[i].category) && rules[i].level != Unknown
  }

  lemma {:induction false} ParseCategory(c: string, rest: string, st: State)
    requires ':' !in c && ',' !in c && st.inCategory
    ensures ParseFrom(c + rest, st) == ParseFrom(rest, st.(category := st.category + c))
    decreases |c|
  {
    hide LevelPrefix;
    if c == "" {
      assert c + rest == rest && st.category + c == st.category;
    } else {
      assert (c + rest)[0] == c[0] && (c + rest)[1..] == c[1..] + rest;
      ParseCategory(c[1..], rest, st.(category := st.category + [c[0]]));
      assert st.category + [c[0]] + c[1..] == st.category + c;
    }
  }

  lemma Initial(s: string, level: Level)
    requires StartsWith(s, level)
    ensures s != "" && Name(level) != "" && LowerName(level) != ""
    ensures s[0] == Name(level)[0] || s[0] == LowerName(level)[0]
  {
  }

  lemma InitialsDiffer(a: Level, b: Level)
    requires a != Unknown && b != Unknown && a != b
    ensures Name(a) != "" && Name(b) != "" && LowerName(b) != ""
    ensures Name(a)[0] != Name(b)[0] && Name(a)[0] != LowerName(b)[0]
    ensures Name(a)[0] != ':' && Name(a)[0] != ','
  {
  }

  lemma OtherName(level: Level, other: Level, rest: string)
    requires level != Unknown && other != Unknown && level != other
    ensures !StartsWith(Name(level) + rest, other)
  {
    hide Name, LowerName, StartsWith;
    InitialsDiffer(level, other);
    if StartsWith(Name(level) + rest, other) {
      Initial(Name(level) + rest, other);
      assert false;
    }
  }

  /** A level name is recognised whatever follows it. */
  lemma NameRecognised(level: Level, rest: string)
    requires level != Unknown
    ensures LevelPrefix(Name(level) + rest) == level
    ensures Name(level) != "" && Name(level)[0] != ':' && Name(level)[0] != ','
  {
    hide Name, LowerName;
    forall other | other != Unknown && other != level ensures !StartsWith(Name(level) + rest, other) {
      OtherName(level, other, rest);
    }
    InitialsDiffer(level, if level == Info then Debug else Info);
  }

  lemma ParseRule(r: Rule, rest: string)
    requires IsPlain(r.category) && r.level != Unknown
    ensures ParseFrom(FormatRule(r) + rest, START) == ParseFrom(rest, State(false, r.category, r.level))
  {
    hide LevelPrefix, Name, LowerName;
    var s := ":" + Name(r.level) + rest;
    assert FormatRule(r) + rest == r.category + s;
    ParseCategory(r.category, s, START);
    assert "" + r.category == r.category;
    var t := Name(r.level) + rest;
    assert s[1..] == t;
    NameRecognised(r.level, rest);
    assert t[0] == Name(r.level)[0];
    assert t[|Name(r.level)|..] == rest;
  }

  /** Rules that are written out and parsed are the rules. */
  lemma {:induction false} ParseFormat(rules: seq<Rule>)
    requires Writable(rules)
    ensures Parse(Format(rules)) == rules
    decreases |rules|
  {
    hide LevelPrefix, Name, FormatRule;
    if rules != [] {
      var r := rules[0];
      var st := State(false, r.category, r.level);
      if |rules| == 1 {
        assert FormatRule(r) + "" == FormatRule(r);
        ParseRule(r, "");
      } else {
        var rest := Format(rules[1..]);
        var s := "," + rest;
        assert FormatRule(r) + "," + rest == FormatRule(r) + s;
        ParseRule(r, s);
        assert s[1..] == rest;
        ParseFormat(rules[1..]);
        assert Completed(st) == [r] && AfterComma(st) == START;
        assert rules == [r] + rules[1..];
      }
    }
  }

  /** A rule without a level does not end at its comma: its category runs on into the next rule's. */
  lemma MissingLevelRunsOn(a: string, b: string, level: Level)
    requires IsPlain(a) && IsPlain(b) && level != Unknown
    ensures Parse(a + "," + FormatRule(Rule(b, level))) == [Rule(a + b, level)]
  {
    hide LevelPrefix, Name, LowerName, ParseFrom;
    var s, u, st := "," + FormatRule(Rule(b, level)), ":" + Name(level), State(true, a, Unknown);
    assert a + "," + FormatRule(Rule(b, level)) == a + s;
    ParseCategory(a, s, START);
    assert "" + a == a;
    assert s[1..] == b + u;
    ParseStep(s, st);
    ParseCategory(b, u, st);
    EndWithLevel(State(true, a + b, Unknown), level);
  }

  lemma EndWithLevel(st: State, level: Level)
    requires st.category != "" && level != Unknown
    ensures ParseFrom(":" + Name(level), st) == [Rule(st.category, level)]
  {
    hide LevelPrefix, Name, LowerName;
    var u := ":" + Name(level);
    assert u[1..] == Name(level);
    NameRecognised(level, "");
    assert Name(level) + "" == Name(level);
    assert Name(level)[|Name(level)|..] == "";
    assert ParseFrom(Name(level), st.(inCategory := false)) == ParseFrom("", State(false, st.category, level));
    assert ParseFrom(u, st) == ParseFrom(u[1..], st.(inCategory := false));
  }
}
