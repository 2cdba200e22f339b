/** The Python string operations the core relies on, over `seq<char>`:
    `sub in s`, `s.lower()`, `s.endswith(suf)`, `s.split(c)[-1]`,
    `s.replace(pat, "")` and `sep.join(parts)`. */
module Text {

  /** `sub in s`: `sub` occurs in `s` as a contiguous substring. */
  predicate Contains(s: string, sub: string)
    ensures sub == [] ==> Contains(s, sub)
    ensures Contains(s, sub) ==> |sub| <= |s|
  {
    |sub| <= |s| && (s[..|sub|] == sub || (|s| > 0 && Contains(s[1..], sub)))
  }

  predicate OccursAt(s: string, sub: string, i: int) {
    0 <= i && i + |sub| <= |s| && s[i..i + |sub|] == sub
  }

  /** `Contains` is the usual "occurs at some index" relation, in both directions. */
  lemma {:induction false} ContainsIff(s: string, sub: string)
    ensures Contains(s, sub) <==> exists i :: OccursAt(s, sub, i)
  {
    if |sub| <= |s| && s[..|sub|] == sub {
      assert OccursAt(s, sub, 0);
    } else if |sub| <= |s| && |s| > 0 {
      ContainsIff(s[1..], sub);
      if exists i :: OccursAt(s, sub, i) {
        var i :| OccursAt(s, sub, i);
        assert i > 0;
        assert OccursAt(s[1..], sub, i - 1) by {
          assert s[1..][i - 1..i - 1 + |sub|] == s[i..i + |sub|];
        }
      }
      if Contains(s[1..], sub) {
        var i :| OccursAt(s[1..], sub, i);
        assert OccursAt(s, sub, i + 1) by {
          assert s[1..][i..i + |sub|] == s[i + 1..i + 1 + |sub|];
        }
      }
    }
  }

  /** The lower-case form of one character, restricted to what decides whether
      an ASCII keyword occurs in `str.lower()`: A-Z become a-z, KELVIN SIGN
      becomes 'k', LATIN CAPITAL LETTER I WITH DOT ABOVE becomes 'i' followed by
      COMBINING DOT ABOVE. Every other character lower-cases to a non-ASCII
      character and is kept as it is. */
  function LowerChar(c: char): (r: string)
    ensures 1 <= |r| <= 2
    ensures forall i :: 0 <= i < |r| ==> !('A' <= r[i] <= 'Z')
  {
    if 'A' <= c <= 'Z' then [(c as int - 'A' as int + 'a' as int) as char]
    else if c == '\U{212A}' then "k"
    else if c == '\U{0130}' then "i\U{0307}"
    else [c]
  }

  function Lower(s: string): (r: string)
    ensures |s| <= |r|
    ensures forall i :: 0 <= i < |r| ==> !('A' <= r[i] <= 'Z')
  {
    if s == [] then [] else LowerChar(s[0]) + Lower(s[1..])
  }

  lemma {:induction false} LowerAppend(a: string, b: string)
    ensures Lower(a + b) == Lower(a) + Lower(b)
  {
    if a != [] {
      assert (a + b)[1..] == a[1..] + b;
      LowerAppend(a[1..], b);
    } else {
      assert a + b == b;
    }
  }

  /** Lower-casing twice is lower-casing once. */
  lemma {:induction false} LowerIdempotent(s: string)
    ensures Lower(Lower(s)) == Lower(s)
  {
    if s != [] {
      var head := LowerChar(s[0]);
      LowerAppend(head, Lower(s[1..]));
      LowerIdempotent(s[1..]);
      assert Lower(head) == head by {
        if |head| == 1 {
          assert head[1..] == [];
        } else {
          assert head == "i\U{0307}";
          assert head[1..] == "\U{0307}";
          assert head[1..][1..] == [];
        }
      }
    }
  }

  /** `s.endswith(suf)`. */
  predicate EndsWith(s: string, suf: string) {
    |suf| <= |s| && s[|s| - |suf|..] == suf
  }

  /** `s.split(sep)[-1]`: the longest suffix of `s` without `sep`. */
  function LastSegment(s: string, sep: char): (r: string)
    ensures sep !in r
    ensures EndsWith(s, r)
    ensures |r| == |s| || s[|s| - |r| - 1] == sep
  {
    if s == [] then []
    else if s[|s| - 1] == sep then []
    else LastSegment(s[..|s| - 1], sep) + [s[|s| - 1]]
  }

  /** A string without `sep` is its own last segment. */
  lemma LastSegmentOfSuffix(prefix: string, sep: char, tail: string)
    requires sep !in tail
    ensures LastSegment(prefix + [sep] + tail, sep) == tail
  {
    var s := prefix + [sep] + tail;
    var r := LastSegment(s, sep);
    assert s[|s| - |tail|..] == tail;
    assert s[|s| - |tail| - 1] == sep;
  }

  /** `s.replace(pat, "")`: Python scans left to right and removes each
      non-overlapping occurrence of `pat`; what is left is not scanned again. */
  function RemoveAll(s: string, pat: string): (r: string)
    requires |pat| > 0
    ensures |r| <= |s|
    decreases |s|
  {
    if |s| < |pat| then s
    else if s[..|pat|] == pat then RemoveAll(s[|pat|..], pat)
    else [s[0]] + RemoveAll(s[1..], pat)
  }

  /** Removing only deletes characters: the result holds no character
      more often than `s` does. */
  lemma {:induction false} RemoveAllKeepsCharacters(s: string, pat: string)
    requires |pat| > 0
    ensures multiset(RemoveAll(s, pat)) <= multiset(s)
    decreases |s|
  {
    if |s| >= |pat| {
      if s[..|pat|] == pat {
        RemoveAllKeepsCharacters(s[|pat|..], pat);
        assert s == s[..|pat|] + s[|pat|..];
      } else {
        RemoveAllKeepsCharacters(s[1..], pat);
        assert s == [s[0]] + s[1..];
      }
    }
  }

  /** With no occurrence of `pat` left, removing it changes nothing. */
  lemma {:induction false} RemoveAllAbsent(s: string, pat: string)
    requires |pat| > 0
    requires !Contains(s, pat)
    ensures RemoveAll(s, pat) == s
  {
    if |s| >= |pat| {
      assert s[..|pat|] != pat;
      RemoveAllAbsent(s[1..], pat);
      assert s == [s[0]] + s[1..];
    }
  }

  /** The first occurrence of `pat` is removed, what comes before it is
      kept, and the scan goes on after it: with `RemoveAllAbsent` this pins
      down `replace(pat, "")`, occurrences inside the text included. */
  lemma {:induction false} RemoveAllFirstOccurrence(a: string, pat: string, b: string)
    requires |pat| > 0
    requires forall k :: 0 <= k < |a| ==> !OccursAt(a + pat + b, pat, k)
    ensures RemoveAll(a + pat + b, pat) == a + RemoveAll(b, pat)
    decreases |a|
  {
    if a == [] {
      var s := a + pat + b;
      assert s[..|pat|] == pat && s[|pat|..] == b;
    } else {
      NoOccurrenceInTail(a, pat, b);
      RemoveAllFirstOccurrence(a[1..], pat, b);
      RemoveAllKeepsHead(a, pat, b);
    }
  }

  /** Without an occurrence at the start, the first character is kept and
      the scan goes on from the second. */
  lemma RemoveAllKeepsHead(a: string, pat: string, b: string)
    requires |pat| > 0 && a != []
    requires !OccursAt(a + pat + b, pat, 0)
    ensures RemoveAll(a + pat + b, pat) == [a[0]] + RemoveAll(a[1..] + pat + b, pat)
  {
    var s := a + pat + b;
    assert s[1..] == a[1..] + pat + b;
  }

  /** No occurrence among the first `|a|` positions stays so after
      dropping the first character. */
  lemma NoOccurrenceInTail(a: string, pat: string, b: string)
    requires a != []
    requires forall k :: 0 <= k < |a| ==> !OccursAt(a + pat + b, pat, k)
    ensures !OccursAt(a + pat + b, pat, 0)
    ensures forall k :: 0 <= k < |a| - 1 ==> !OccursAt(a[1..] + pat + b, pat, k)
  {
    var s := a + pat + b;
    var t := a[1..] + pat + b;
    assert s[1..] == t;
    forall k | 0 <= k < |a| - 1 ensures !OccursAt(t, pat, k) {
      assert !OccursAt(s, pat, k + 1);
      assert t[k..k + |pat|] == s[k + 1..k + 1 + |pat|];
    }
  }

  /** Removing ".txt" from a name that ends in ".txt" removes that suffix
      and whatever it would have removed from the rest: no occurrence can
      straddle the boundary, since no proper suffix of ".txt" is a prefix of it. */
  lemma {:induction false} RemoveTxtSuffix(x: string)
    ensures RemoveAll(x + ".txt", ".txt") == RemoveAll(x, ".txt")
    decreases |x|
  {
    var pat := ".txt";
    var s := x + pat;
    if x == [] {
      assert s[..4] == pat;
      assert s[4..] == [];
    } else if |x| >= 4 && x[..4] == pat {
      assert s[..4] == pat;
      assert s[4..] == x[4..] + pat;
      RemoveTxtSuffix(x[4..]);
    } else {
      assert s[..4] != pat by {
        if |x| >= 4 {
          assert s[..4] == x[..4];
        } else if |x| == 1 {
          assert s[1] == '.';
        } else if |x| == 2 {
          assert s[2] == '.';
        } else {
          assert s[3] == '.';
        }
      }
      assert s[1..] == x[1..] + pat;
      RemoveTxtSuffix(x[1..]);
      if |x| < 4 {
        assert RemoveAll(x[1..], pat) == x[1..];
      }
      assert x == [x[0]] + x[1..];
    }
  }

  /** `sep.join(parts)`. */
  function Join(parts: seq<string>, sep: string): (r: string)
    ensures parts == [] ==> r == ""
    ensures |parts| == 1 ==> r == parts[0]
    ensures parts != [] ==> |parts[0]| <= |r|
  {
    if |parts| == 0 then ""
    else if |parts| == 1 then parts[0]
    else parts[0] + sep + Join(parts[1..], sep)
  }

  /** Where part `i` starts in `Join(parts, sep)`: after every earlier part
      and one separator after each of them. */
  function PartOffset(parts: seq<string>, sep: string, i: nat): nat
    requires i <= |parts|
  {
    if i == 0 then 0 else |parts[0]| + |sep| + PartOffset(parts[1..], sep, i - 1)
  }

  lemma SliceAfterPrefix(x: string, y: string, a: nat, b: nat)
    requires a <= b <= |y|
    ensures (x + y)[|x| + a..|x| + b] == y[a..b]
  {
  }

  /** Part `i` of the joined string sits at its offset; the last part ends
      the string. */
  lemma {:induction false} JoinPartAt(parts: seq<string>, sep: string, i: nat)
    requires i < |parts|
    ensures PartOffset(parts, sep, i) + |parts[i]| <= |Join(parts, sep)|
    ensures Join(parts, sep)[PartOffset(parts, sep, i)..PartOffset(parts, sep, i) + |parts[i]|] == parts[i]
    ensures i + 1 == |parts| ==> PartOffset(parts, sep, i) + |parts[i]| == |Join(parts, sep)|
  {
    if i > 0 {
      var rest := Join(parts[1..], sep);
      var at := PartOffset(parts[1..], sep, i - 1);
      JoinPartAt(parts[1..], sep, i - 1);
      assert parts[1..][i - 1] == parts[i];
      assert Join(parts, sep) == (parts[0] + sep) + rest;
      SliceAfterPrefix(parts[0] + sep, rest, at, at + |parts[i]|);
    } else if |parts| > 1 {
      assert Join(parts, sep) == parts[0] + (sep + Join(parts[1..], sep));
    }
  }

  /** Between part `i` and part `i + 1` stands exactly one separator. */
  lemma {:induction false} JoinSeparatorAfter(parts: seq<string>, sep: string, i: nat)
    requires i + 1 < |parts|
    ensures PartOffset(parts, sep, i + 1) == PartOffset(parts, sep, i) + |parts[i]| + |sep|
    ensures PartOffset(parts, sep, i + 1) <= |Join(parts, sep)|
    ensures Join(parts, sep)[PartOffset(parts, sep, i) + |parts[i]|..PartOffset(parts, sep, i + 1)] == sep
  {
    var rest := Join(parts[1..], sep);
    assert Join(parts, sep) == (parts[0] + sep) + rest;
    if i > 0 {
      var at := PartOffset(parts[1..], sep, i - 1);
      JoinSeparatorAfter(parts[1..], sep, i - 1);
      assert parts[1..][i - 1] == parts[i];
      SliceAfterPrefix(parts[0] + sep, rest, at + |parts[i]|, at + |parts[i]| + |sep|);
    } else {
      assert (parts[0] + sep)[|parts[0]|..] == sep;
    }
  }
}
