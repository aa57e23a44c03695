/**
 * The pieces of Python's string API that sync_schema.py relies on, on
 * `string` (= `seq<char>`): `str.find`, slicing with possibly negative
 * bounds, `str.replace` of one character, `','.join`, and the module's own
 * `replaceChars`.
 */
module Text {

  predicate StartsWith(s: string, prefix: string)
  {
    |prefix| <= |s| && s[..|prefix|] == prefix
  }

  predicate EndsWith(s: string, suffix: string)
  {
    |suffix| <= |s| && s[|s| - |suffix|..] == suffix
  }

  lemma PrefixOfConcat(a: string, b: string)
    ensures StartsWith(a + b, a) && (a + b)[|a|..] == b
  {
    assert (a + b)[..|a|] == a;
  }

  lemma SuffixOfConcat(a: string, b: string)
    ensures EndsWith(a + b, b)
  {
    assert (a + b)[|a|..] == b;
  }

  lemma PrefixTrans(s: string, p: string, q: string)
    requires StartsWith(s, p) && StartsWith(p, q)
    ensures StartsWith(s, q)
  {
    assert s[..|q|] == s[..|p|][..|q|];
  }

  lemma SuffixTrans(s: string, p: string, q: string)
    requires EndsWith(s, p) && EndsWith(p, q)
    ensures EndsWith(s, q)
  {
    assert s[|s| - |q|..] == s[|s| - |p|..][|p| - |q|..];
  }

  /** `pat` occurs in `s` starting at index `i`. */
  predicate OccursAt(s: string, pat: string, i: int)
  {
    0 <= i && i + |pat| <= |s| && s[i..i + |pat|] == pat
  }

  /** The lowest index at or after `i` where `pat` occurs, or -1. */
  function FindFrom(s: string, pat: string, i: nat): (r: int)
    requires i <= |s|
    ensures r == -1 || (i <= r && OccursAt(s, pat, r))
    ensures forall j :: i <= j && (r == -1 || j < r) ==> !OccursAt(s, pat, j)
    decreases |s| - i
  {
    if OccursAt(s, pat, i) then i
    else if i == |s| then -1
    else FindFrom(s, pat, i + 1)
  }

  /** Python's `s.find(pat)`: the lowest index where `pat` occurs, -1 if none. */
  function Find(s: string, pat: string): (r: int)
    ensures r == -1 <==> forall j :: !OccursAt(s, pat, j)
    ensures r != -1 ==> OccursAt(s, pat, r) && forall j :: j < r ==> !OccursAt(s, pat, j)
  {
    FindFrom(s, pat, 0)
  }

  /** Python's `s[i:]`: a negative `i` counts from the end, and is clamped at 0. */
  function SliceFrom(s: string, i: int): (r: string)
    ensures EndsWith(s, r)
    ensures 0 <= i <= |s| ==> r == s[i..]
    ensures i < 0 ==> |r| == if |s| + i < 0 then |s| else -i
    ensures i > |s| ==> r == []
  {
    if i < 0 then (if |s| + i < 0 then s else s[|s| + i..])
    else if i > |s| then []
    else s[i..]
  }

  /** Python's `s[:j]`: a negative `j` counts from the end, and is clamped at 0. */
  function SliceTo(s: string, j: int): (r: string)
    ensures StartsWith(s, r)
    ensures 0 <= j <= |s| ==> r == s[..j]
    ensures j < 0 ==> |r| == if |s| + j < 0 then 0 else |s| + j
    ensures j > |s| ==> r == s
  {
    if j < 0 then (if |s| + j < 0 then [] else s[..|s| + j])
    else if j > |s| then s
    else s[..j]
  }

  /** Python's `sep.join(xs)`. */
  function Join(sep: string, xs: seq<string>): string
  {
    if |xs| == 0 then ""
    else if |xs| == 1 then xs[0]
    else xs[0] + sep + Join(sep, xs[1..])
  }

  /** Python's `s.replace(c, rep)` for a one-character pattern `c`. */
  function ReplaceChar(s: string, c: char, rep: string): string
  {
    if s == [] then []
    else (if s[0] == c then rep else [s[0]]) + ReplaceChar(s[1..], c, rep)
  }

  /** Replacing each character of `chars` in turn, first to last. */
  function ReplaceAll(s: string, chars: seq<char>, rep: string): string
    decreases |chars|
  {
    if chars == [] then s
    else ReplaceAll(ReplaceChar(s, chars[0], rep), chars[1..], rep)
  }

  /** Reference definition: `s` with every character listed in `chars` dropped. */
  function RemoveChars(s: string, chars: seq<char>): string
  {
    if s == [] then []
    else (if s[0] in chars then [] else [s[0]]) + RemoveChars(s[1..], chars)
  }

  /** `sub` can be obtained from `s` by deleting characters. */
  predicate IsSubsequence(sub: string, s: string)
    decreases |s|
  {
    sub == [] ||
    (s != [] && if sub[0] == s[0] then IsSubsequence(sub[1..], s[1..]) else IsSubsequence(sub, s[1..]))
  }

  /**
   * replaceChars (sync_schema.py): reassigns the string once per listed
   * character, replacing every occurrence of it.
   */
  method ReplaceChars(s: string, chars: seq<char>, replacement: string) returns (r: string)
    ensures r == ReplaceAll(s, chars, replacement)
    ensures replacement == "" ==> r == RemoveChars(s, chars)
  {
    r := s;
    for i := 0 to |chars|
      invariant ReplaceAll(r, chars[i..], replacement) == ReplaceAll(s, chars, replacement)
    {
      assert chars[i..][1..] == chars[i + 1..];
      r := ReplaceChar(r, chars[i], replacement);
    }
    assert chars[|chars|..] == [];
    if replacement == "" {
      ReplaceAllEmptyIsRemove(s, chars);
    }
  }

  lemma {:induction false} ReplaceCharEmptyIsRemove(s: string, c: char)
    ensures ReplaceChar(s, c, "") == RemoveChars(s, [c])
  {
    if s != [] {
      ReplaceCharEmptyIsRemove(s[1..], c);
    }
  }

  lemma {:induction false} RemoveCharsTwice(s: string, a: seq<char>, b: seq<char>)
    ensures RemoveChars(RemoveChars(s, a), b) == RemoveChars(s, a + b)
  {
    if s != [] {
      RemoveCharsTwice(s[1..], a, b);
      var head := if s[0] in a then [] else [s[0]];
      RemoveCharsAppend(head, RemoveChars(s[1..], a), b);
    }
  }

  lemma {:induction false} RemoveCharsAppend(x: string, y: string, chars: seq<char>)
    ensures RemoveChars(x + y, chars) == RemoveChars(x, chars) + RemoveChars(y, chars)
  {
    if x != [] {
      assert (x + y)[1..] == x[1..] + y;
      RemoveCharsAppend(x[1..], y, chars);
    } else {
      assert x + y == y;
    }
  }

  /** With an empty replacement, replaceChars removes exactly the listed characters. */
  lemma {:induction false} ReplaceAllEmptyIsRemove(s: string, chars: seq<char>)
    ensures ReplaceAll(s, chars, "") == RemoveChars(s, chars)
    decreases |chars|
  {
    if chars == [] {
      RemoveCharsNone(s);
    } else {
      var once := ReplaceChar(s, chars[0], "");
      ReplaceAllEmptyIsRemove(once, chars[1..]);
      ReplaceCharEmptyIsRemove(s, chars[0]);
      RemoveCharsTwice(s, [chars[0]], chars[1..]);
      assert [chars[0]] + chars[1..] == chars;
    }
  }

  lemma {:induction false} RemoveCharsNone(s: string)
    ensures RemoveChars(s, []) == s
  {
    if s != [] {
      RemoveCharsNone(s[1..]);
      assert s == [s[0]] + s[1..];
    }
  }

  /** RemoveChars leaves none of the listed characters. */
  lemma {:induction false} RemoveCharsDropsListed(s: string, chars: seq<char>)
    ensures forall c :: c in chars ==> c !in RemoveChars(s, chars)
  {
    if s != [] {
      RemoveCharsDropsListed(s[1..], chars);
    }
  }

  /** RemoveChars keeps every other character as often as it occurred. */
  lemma {:induction false} RemoveCharsKeepsOthers(s: string, chars: seq<char>)
    ensures forall c :: c !in chars ==> multiset(RemoveChars(s, chars))[c] == multiset(s)[c]
  {
    if s != [] {
      RemoveCharsKeepsOthers(s[1..], chars);
      assert s == [s[0]] + s[1..];
    }
  }

  /** RemoveChars keeps the remaining characters in their order. */
  lemma {:induction false} RemoveCharsInOrder(s: string, chars: seq<char>)
    ensures IsSubsequence(RemoveChars(s, chars), s)
  {
    if s != [] {
      RemoveCharsInOrder(s[1..], chars);
      var rest := RemoveChars(s[1..], chars);
      if s[0] in chars {
        RemoveCharsDropsListed(s[1..], chars);
        assert RemoveChars(s, chars) == [] + rest == rest;
        if rest != [] {
          assert rest[0] in rest;
          assert rest[0] != s[0];
        }
      } else {
        assert ([s[0]] + rest)[1..] == rest;
      }
    }
  }
}
