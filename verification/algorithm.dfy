/**
 * The identification scheme every algorithm shares (algorithms/IAlgorithm.kt):
 * an id "group:name" built from the algorithm's group and name, each lowercased
 * and with spaces turned into hyphens. Case mapping covers ASCII letters only.
 */
module Algorithms {

  predicate IsUpper(c: char)
  {
    'A' <= c <= 'Z'
  }

  /** `Char.lowercase()` restricted to ASCII: upper-case letters map to lower case, all else is kept. */
  function LowerChar(c: char): char
  {
    if IsUpper(c) then (c as int + 32) as char else c
  }

  /** The character `replace(" ", "-")` puts in place of `c`. */
  function Hyphenate(c: char): char
  {
    if c == ' ' then '-' else c
  }

  /** `String.lowercase()`: every character lowercased, in place. */
  function Lowercase(s: string): (r: string)
    ensures |r| == |s|
  {
    seq(|s|, i requires 0 <= i < |s| => LowerChar(s[i]))
  }

  /** `replace(" ", "-")`: every space becomes a hyphen, every other character is kept. */
  function ReplaceSpaces(s: string): (r: string)
    ensures |r| == |s|
  {
    seq(|s|, i requires 0 <= i < |s| => Hyphenate(s[i]))
  }

  /** The normalisation `getId` applies to the group and to the name. */
  function Norm(s: string): string
  {
    ReplaceSpaces(Lowercase(s))
  }

  /** `getId`: the normalised group and the normalised name, joined by a colon. */
  function Id(group: string, name: string): string
  {
    Norm(group) + ":" + Norm(name)
  }

  /** Both passes work character by character, so normalising a concatenation normalises each part. */
  lemma NormConcat(a: string, b: string)
    ensures Norm(a + b) == Norm(a) + Norm(b)
  {
  }

  /** Normalising keeps the length, leaves no space and no upper-case letter, and is idempotent. */
  lemma NormProperties(s: string)
    ensures |Norm(s)| == |s|
    ensures ' ' !in Norm(s)
    ensures forall i :: 0 <= i < |s| ==> !IsUpper(Norm(s)[i])
    ensures forall i :: 0 <= i < |s| && !IsUpper(s[i]) && s[i] != ' ' ==> Norm(s)[i] == s[i]
    ensures Norm(Norm(s)) == Norm(s)
  {
    var n := Norm(s);
    assert forall i :: 0 <= i < |s| ==> n[i] != ' ' && !IsUpper(n[i]);
    assert Norm(n) == n;
  }

  /** The id has no space, no upper-case letter, and one character more than group and name together. */
  lemma IdProperties(group: string, name: string)
    ensures |Id(group, name)| == |group| + 1 + |name|
    ensures ' ' !in Id(group, name)
    ensures forall i :: 0 <= i < |Id(group, name)| ==> !IsUpper(Id(group, name)[i])
  {
    NormProperties(group);
    NormProperties(name);
    var id := Id(group, name);
    forall i | 0 <= i < |id|
      ensures id[i] != ' ' && !IsUpper(id[i])
    {
      if i < |group| {
        assert id[i] == Norm(group)[i];
      } else if i > |group| {
        assert id[i] == Norm(name)[i - |group| - 1];
      }
    }
  }

  /** When the group holds no colon, the id's first colon separates the normalised group from the normalised name. */
  lemma IdSplits(group: string, name: string)
    requires ':' !in group
    ensures ':' !in Id(group, name)[..|group|]
    ensures Id(group, name)[|group|] == ':'
    ensures Id(group, name)[..|group|] == Norm(group)
    ensures Id(group, name)[|group| + 1..] == Norm(name)
  {
    var id := Id(group, name);
    NormProperties(group);
    assert id[..|group|] == Norm(group);
    forall i | 0 <= i < |group|
      ensures Norm(group)[i] != ':'
    {
      assert group[i] != ':';
    }
    assert id[|group| + 1..] == Norm(name);
  }
}
