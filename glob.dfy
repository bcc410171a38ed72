/** The key patterns of the Redis `KEYS` command, which `delete_pattern`
    passes through: `*` matches any run of characters, `?` any one character,
    a backslash makes the next character literal, and every other character
    matches itself. The empty key is listed only for `*` and the empty
    pattern. */
module Glob {

  predicate IsMeta(c: char) {
    c == '*' || c == '?' || c == '\\' || c == '['
  }

  /** A pattern with no special characters: it stands for itself. */
  predicate IsLiteral(p: string) {
    forall i :: 0 <= i < |p| ==> !IsMeta(p[i])
  }

  /** Does `key` match `pattern`, as `KEYS` decides it? The pattern `*` is
      listed as matching every key. Otherwise the matcher only enters its
      loop while both pattern and key are non-empty, so the empty key matches
      only the empty pattern. Without a `*` every pattern character consumes
      at least one key character, so no key longer than the pattern matches,
      and a pattern of plain characters and `?` matches only keys of its own
      length. */
  predicate Matches(pattern: string, key: string): (b: bool)
    ensures key == [] ==> (b <==> pattern == [] || pattern == "*")
    ensures b && (forall i :: 0 <= i < |pattern| ==> pattern[i] != '*') ==> |key| <= |pattern|
    ensures b && (forall i :: 0 <= i < |pattern| ==> pattern[i] != '*' && pattern[i] != '\\') ==>
              |key| == |pattern|
  {
    if pattern == "*" then assert pattern[0] == '*'; true
    else if key == [] then pattern == []
    else MatchesRest(pattern, key)
  }

  /** The matcher once it has consumed at least one key character: from then
      on, stars left at the end of the pattern also match the empty rest of
      the key. */
  predicate MatchesRest(pattern: string, key: string): (b: bool)
    decreases |pattern| + |key|
    ensures b && (forall i :: 0 <= i < |pattern| ==> pattern[i] != '*') ==> |key| <= |pattern|
    ensures b && (forall i :: 0 <= i < |pattern| ==> pattern[i] != '*' && pattern[i] != '\\') ==>
              |key| == |pattern|
  {
    if pattern == [] then key == []
    else if pattern[0] == '*' then
      MatchesRest(pattern[1..], key) || (key != [] && MatchesRest(pattern, key[1..]))
    else if pattern[0] == '?' then
      key != [] && MatchesRest(pattern[1..], key[1..])
    else if pattern[0] == '\\' && |pattern| >= 2 then
      key != [] && key[0] == pattern[1] && MatchesRest(pattern[2..], key[1..])
    else
      key != [] && key[0] == pattern[0] && MatchesRest(pattern[1..], key[1..])
  }

  /** `*` alone matches every key. */
  lemma StarMatchesAll(key: string)
    ensures Matches("*", key)
  {
  }

  /** A literal pattern matches exactly one key: itself. */
  lemma LiteralMatchesItself(p: string, key: string)
    requires IsLiteral(p)
    ensures Matches(p, key) <==> key == p
  {
    LiteralMatchesRest(p, key);
    if p != [] {
      assert !IsMeta(p[0]);
    }
  }

  lemma {:induction false} LiteralMatchesRest(p: string, key: string)
    requires IsLiteral(p)
    ensures MatchesRest(p, key) <==> key == p
  {
    if p != [] && key != [] {
      LiteralMatchesRest(p[1..], key[1..]);
      assert key == [key[0]] + key[1..];
      assert p == [p[0]] + p[1..];
    }
  }

  /** A literal prefix followed by `*` (such as "fruits:*") matches exactly
      the keys that start with the prefix. */
  lemma PrefixStar(p: string, key: string)
    requires IsLiteral(p)
    ensures Matches(p + "*", key) <==> p <= key
  {
    if p == [] {
      assert p + "*" == "*";
    } else if key == [] {
      assert p + "*" != "*" by { assert |p + "*"| > 1; }
    } else {
      PrefixStarRest(p, key);
    }
  }

  lemma {:induction false} StarMatchesRest(key: string)
    ensures MatchesRest("*", key)
  {
    if key != [] {
      StarMatchesRest(key[1..]);
    }
  }

  lemma {:induction false} PrefixStarRest(p: string, key: string)
    requires IsLiteral(p)
    ensures MatchesRest(p + "*", key) <==> p <= key
  {
    if p == [] {
      assert p + "*" == "*";
      StarMatchesRest(key);
    } else {
      assert (p + "*")[0] == p[0] && (p + "*")[1..] == p[1..] + "*";
      if key != [] {
        PrefixStarRest(p[1..], key[1..]);
      }
    }
  }
}
