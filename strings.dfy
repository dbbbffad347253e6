/** The string operations the cleaning pass uses: `str.lower()`, `str.replace`, slicing and the
    substring test `in`. Letters are ASCII; other characters are left alone by lower-casing. */
module Strings {

  predicate IsUpper(c: char) {
    'A' <= c <= 'Z'
  }

  function LowerChar(c: char): char {
    if IsUpper(c) then (c as int + 32) as char else c
  }

  /** `s.lower()`. */
  function Lower(s: string): string {
    seq(|s|, i requires 0 <= i < |s| => LowerChar(s[i]))
  }

  /** `s.replace(a, b)` for single characters a and b. */
  function ReplaceChar(s: string, a: char, b: char): string {
    seq(|s|, i requires 0 <= i < |s| => if s[i] == a then b else s[i])
  }

  /** The header rewrite `.str.lower().str.replace(' ', '-')`. */
  function KebabCase(h: string): string {
    ReplaceChar(Lower(h), ' ', '-')
  }

  /** `s[:n]`: the first n characters, or all of s when it is shorter. */
  function Prefix(s: string, n: nat): (p: string)
    ensures |p| == if |s| <= n then |s| else n
    ensures forall i :: 0 <= i < |p| ==> p[i] == s[i]
  {
    if |s| <= n then s else s[..n]
  }

  /** `sub in s`. */
  function Contains(s: string, sub: string): bool
    decreases |s|
  {
    |sub| <= |s| && (s[..|sub|] == sub || (s != [] && Contains(s[1..], sub)))
  }

  lemma LowerCharFacts(c: char)
    ensures !IsUpper(LowerChar(c))
    ensures LowerChar(c) == ' ' <==> c == ' '
    ensures LowerChar(LowerChar(c)) == LowerChar(c)
    ensures !IsUpper(c) ==> LowerChar(c) == c
  {
  }

  /** The rewritten header has the same length; each space becomes '-', each ASCII capital its
      lower-case letter, and every other character stays. */
  lemma KebabCaseChars(h: string)
    ensures |KebabCase(h)| == |h|
    ensures forall i :: 0 <= i < |h|
              ==> KebabCase(h)[i] == if h[i] == ' ' then '-' else LowerChar(h[i])
  {
    forall i | 0 <= i < |h|
      ensures KebabCase(h)[i] == if h[i] == ' ' then '-' else LowerChar(h[i])
    {
      LowerCharFacts(h[i]);
    }
  }

  /** A rewritten header has no space and no upper-case letter. */
  lemma KebabCaseIsClean(h: string)
    ensures forall i :: 0 <= i < |KebabCase(h)| ==> KebabCase(h)[i] != ' ' && !IsUpper(KebabCase(h)[i])
  {
    KebabCaseChars(h);
    forall i | 0 <= i < |h| ensures KebabCase(h)[i] != ' ' && !IsUpper(KebabCase(h)[i]) {
      LowerCharFacts(h[i]);
    }
  }

  /** A header with no space and no upper-case letter is left as it is. */
  lemma KebabCaseKeepsClean(h: string)
    requires forall i :: 0 <= i < |h| ==> h[i] != ' ' && !IsUpper(h[i])
    ensures KebabCase(h) == h
  {
    KebabCaseChars(h);
    forall i | 0 <= i < |h| ensures KebabCase(h)[i] == h[i] {
      LowerCharFacts(h[i]);
    }
  }

  /** Rewriting headers twice is rewriting them once. */
  lemma KebabCaseIdempotent(h: string)
    ensures KebabCase(KebabCase(h)) == KebabCase(h)
  {
    KebabCaseIsClean(h);
    KebabCaseKeepsClean(KebabCase(h));
  }

  /** sub occurs in s starting at position i. */
  predicate OccursAt(s: string, sub: string, i: int) {
    0 <= i && i + |sub| <= |s| && s[i..i + |sub|] == sub
  }

  /** `sub in s` holds exactly when sub occurs in s at some position. */
  lemma {:induction false} ContainsAt(s: string, sub: string)
    decreases |s|
    ensures Contains(s, sub) <==> exists i :: OccursAt(s, sub, i)
  {
    if |sub| <= |s| {
      if s[..|sub|] == sub {
        assert OccursAt(s, sub, 0);
      } else if s != [] {
        var t := s[1..];
        ContainsAt(t, sub);
        if Contains(t, sub) {
          var i :| OccursAt(t, sub, i);
          assert t[i..i + |sub|] == s[i + 1..i + 1 + |sub|];
          assert OccursAt(s, sub, i + 1);
        }
        if exists i :: OccursAt(s, sub, i) {
          var i :| OccursAt(s, sub, i);
          assert i != 0;
          assert t[i - 1..i - 1 + |sub|] == s[i..i + |sub|];
          assert OccursAt(t, sub, i - 1);
        }
      }
    }
  }
}
