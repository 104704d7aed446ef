/**
 Matching log categories against patterns with question marks and asterisks.
 */
module WildCard {

  /** What the matcher decides, position by position. */
  predicate Match(str: string, pattern: string)
    decreases |str| + |pattern|
  {
    if pattern == [] then str == []
    else if pattern[0] == '?' then str != [] && Match(str[1..], pattern[1..])
    else if pattern[0] == '*' then Match(str, pattern[1..]) || (str != [] && Match(str[1..], pattern))
    else str != [] && str[0] == pattern[0] && Match(str[1..], pattern[1..])
  }

  /** The loop moves on over question marks and plain characters and recurses only at an asterisk. */
  method WildCardMatch(str: string, pattern: string) returns (m: bool)
    ensures m == Match(str, pattern)
    decreases |str| + |pattern|
  {
    var i, j := 0, 0;
    while j < |pattern|
      invariant 0 <= i <= |str| && 0 <= j <= |pattern|
      invariant Match(str, pattern) == Match(str[i..], pattern[j..])
      decreases |pattern| - j
    {
      assert pattern[j..][1..] == pattern[j + 1..];
      assert i < |str| ==> str[i..][1..] == str[i + 1..];
      if pattern[j] == '?' {
        if i == |str| {
          return false;
        }
        i, j := i + 1, j + 1;
      } else if pattern[j] == '*' {
        m := WildCardMatch(str[i..], pattern[j + 1..]);
        if !m && i < |str| {
          m := WildCardMatch(str[i + 1..], pattern[j..]);
        }
        return;
      } else {
        if i == |str| || str[i] != pattern[j] {
          return false;
        }
        i, j := i + 1, j + 1;
      }
    }
    m := i == |str|;
  }

  // ---- What a match means ------------------------------------------------------------------------

  function Joined(pieces: seq<string>): string {
    if pieces == [] then [] else pieces[0] + Joined(pieces[1..])
  }

  /** A piece of text that one pattern character can stand for. */
  predicate StandsFor(p: char, piece: string) {
    if p == '*' then true else if p == '?' then |piece| == 1 else piece == [p]
  }

  /** The text falls into one piece for each pattern character. */
  ghost predicate Divides(str: string, pattern: string, pieces: seq<string>) {
    && |pieces| == |pattern| && Joined(pieces) == str
    && forall i :: 0 <= i < |pattern| ==> StandsFor(pattern[i], pieces[i])
  }

  lemma {:induction false} MatchDivides(str: string, pattern: string) returns (pieces: seq<string>)
    requires Match(str, pattern)
    ensures Divides(str, pattern, pieces)
    decreases |str| + |pattern|
  {
    if pattern == [] {
      pieces := [];
    } else if pattern[0] == '*' && Match(str, pattern[1..]) {
      var rest := MatchDivides(str, pattern[1..]);
      pieces := [[]] + rest;
      assert pieces[1..] == rest;
    } else if pattern[0] == '*' {
      var rest := MatchDivides(str[1..], pattern);
      pieces := [[str[0]] + rest[0]] + rest[1..];
      assert pieces[1..] == rest[1..];
      assert str == [str[0]] + str[1..];
    } else {
      var rest := MatchDivides(str[1..], pattern[1..]);
      pieces := [[str[0]]] + rest;
      assert pieces[1..] == rest;
      assert str == [str[0]] + str[1..];
    }
  }

  lemma {:induction false} DividesMatch(str: string, pattern: string, pieces: seq<string>)
    requires Divides(str, pattern, pieces)
    ensures Match(str, pattern)
    decreases |str| + |pattern|
  {
    if pattern != [] {
      var rest := pieces[1..];
      if pattern[0] == '*' && pieces[0] != [] {
        var shorter := [pieces[0][1..]] + rest;
        assert shorter[1..] == rest;
        assert str[1..] == pieces[0][1..] + Joined(rest);
        DividesMatch(str[1..], pattern, shorter);
      } else {
        assert str[|pieces[0]|..] == Joined(rest);
        forall i | 0 <= i < |pattern[1..]| ensures StandsFor(pattern[1..][i], rest[i]) {
          assert StandsFor(pattern[i + 1], pieces[i + 1]);
        }
        assert StandsFor(pattern[0], pieces[0]);
        DividesMatch(str[|pieces[0]|..], pattern[1..], rest);
      }
    }
  }

  /** A text matches exactly when it falls into pieces that the pattern characters stand for in turn. */
  lemma MatchMeans(str: string, pattern: string)
    ensures Match(str, pattern) <==> exists pieces :: Divides(str, pattern, pieces)
  {
    if Match(str, pattern) {
      var pieces := MatchDivides(str, pattern);
    }
    if pieces :| Divides(str, pattern, pieces) {
      DividesMatch(str, pattern, pieces);
    }
  }
}
