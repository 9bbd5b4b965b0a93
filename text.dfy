/** String helpers over `seq<char>`: ASCII case folding and the `str` methods the source calls. */
module Text {

  predicate IsUpper(c: char) { 'A' <= c <= 'Z' }

  predicate IsLetter(c: char) { 'A' <= c <= 'Z' || 'a' <= c <= 'z' }

  /** ASCII lower-casing of one character; all other characters are unchanged. */
  function LowerChar(c: char): char
  {
    if IsUpper(c) then (c as int + 32) as char else c
  }

  /** No character of `s` is upper case. */
  predicate IsLower(s: string)
  {
    forall i :: 0 <= i < |s| ==> !IsUpper(s[i])
  }

  /**
   * ASCII model of `str.lower()`: position by position, each character is lowered on its
   * own; no upper-case letter is left, and a string that has none is its own lower-case
   * form, so lowering twice is lowering once.
   */
  function Lower(s: string): (r: string)
    ensures |r| == |s|
    ensures forall i :: 0 <= i < |s| ==> r[i] == LowerChar(s[i])
    ensures IsLower(r)
    ensures IsLower(s) ==> r == s
  {
    seq(|s|, i requires 0 <= i < |s| => LowerChar(s[i]))
  }

  /** No character of `s` belongs to `bad`. */
  predicate Excludes(s: string, bad: set<char>)
  {
    forall i :: 0 <= i < |s| ==> s[i] !in bad
  }

  lemma ExcludesConcat(a: string, b: string, bad: set<char>)
    ensures Excludes(a + b, bad) <==> Excludes(a, bad) && Excludes(b, bad)
  {
    if Excludes(a, bad) && Excludes(b, bad) {
      forall i | 0 <= i < |a + b| ensures (a + b)[i] !in bad {
        if i >= |a| { assert (a + b)[i] == b[i - |a|]; }
      }
    }
    if Excludes(a + b, bad) {
      forall i | 0 <= i < |a| ensures a[i] !in bad {
        assert (a + b)[i] == a[i];
      }
      forall i | 0 <= i < |b| ensures b[i] !in bad {
        assert (a + b)[|a| + i] == b[i];
      }
    }
  }

  lemma ExcludesSlice(s: string, i: int, j: int, bad: set<char>)
    requires 0 <= i <= j <= |s|
    requires Excludes(s, bad)
    ensures Excludes(s[i..j], bad)
  {
    forall k | 0 <= k < j - i ensures s[i..j][k] !in bad {
      assert s[i..j][k] == s[i + k];
    }
  }

  /** Lower-casing cannot introduce a character that is not a letter. */
  lemma LowerExcludes(s: string, bad: set<char>)
    requires Excludes(s, bad)
    requires forall c :: c in bad ==> !IsLetter(c)
    ensures Excludes(Lower(s), bad)
  {
    forall i | 0 <= i < |s| ensures Lower(s)[i] !in bad {
      assert Lower(s)[i] == LowerChar(s[i]);
    }
  }

  /** Index of the first character of `s` that is in `cs`, or `|s|` when there is none. */
  function FindAny(s: string, cs: set<char>): (i: nat)
    ensures i <= |s|
    ensures i < |s| ==> s[i] in cs
    ensures forall j :: 0 <= j < i ==> s[j] !in cs
  {
    if s == [] then 0
    else if s[0] in cs then 0
    else 1 + FindAny(s[1..], cs)
  }

  /** `str.find(c)`, with `|s|` standing for Python's -1. */
  function Find(s: string, c: char): (i: nat)
    ensures i <= |s|
    ensures i < |s| ==> s[i] == c
    ensures forall j :: 0 <= j < i ==> s[j] != c
    ensures i == |s| <==> c !in s
  {
    FindAny(s, {c})
  }

  /** Index of the last occurrence of `c` in `s`, or `|s|` when there is none. */
  function FindLast(s: string, c: char): (i: nat)
    ensures i <= |s|
    ensures i < |s| ==> s[i] == c && forall j :: i < j < |s| ==> s[j] != c
    ensures i == |s| ==> c !in s
  {
    if s == [] then 0
    else if s[|s| - 1] == c then |s| - 1
    else
      var k := FindLast(s[..|s| - 1], c);
      if k == |s| - 1 then |s| else k
  }

  /** `s.split(c, 1)` as a pair; the second part is `""` when `c` does not occur. */
  function SplitOnce(s: string, c: char): (r: (string, string))
    ensures c !in s ==> r == (s, "")
    ensures c in s ==> r.0 + [c] + r.1 == s && c !in r.0
  {
    var i := Find(s, c);
    if i == |s| then (s, "") else (s[..i], s[i + 1..])
  }

  predicate StartsWith(s: string, prefix: string)
  {
    |prefix| <= |s| && s[..|prefix|] == prefix
  }

  predicate EndsWith(s: string, suffix: string)
  {
    |suffix| <= |s| && s[|s| - |suffix|..] == suffix
  }

  /** Python's `needle in s` on strings. */
  predicate Contains(s: string, needle: string)
  {
    StartsWith(s, needle) || (s != [] && Contains(s[1..], needle))
  }
}
