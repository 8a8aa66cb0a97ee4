/**
 * The string methods the scraper calls (`strip`, `split`, `replace`, `lower`), restricted to ASCII.
 * Whitespace is what Python's `str.isspace()` accepts among the ASCII characters.
 */
module Text {

  /** Tab, line feed, vertical tab, form feed and carriage return (9..13), the four information
      separators (28..31) and space (32). */
  predicate IsSpace(c: char) {
    (9 <= c as int <= 13) || (28 <= c as int <= 32)
  }

  predicate AllSpace(s: string) {
    forall i :: 0 <= i < |s| ==> IsSpace(s[i])
  }

  predicate NoSpace(s: string) {
    forall i :: 0 <= i < |s| ==> !IsSpace(s[i])
  }

  /** `s.lstrip()`: the suffix of `s` left after dropping its leading whitespace. */
  function TrimLeft(s: string): (r: string)
    ensures |r| <= |s| && r == s[|s| - |r|..]
    ensures forall i :: 0 <= i < |s| - |r| ==> IsSpace(s[i])
    ensures r != [] ==> !IsSpace(r[0])
  {
    if s != [] && IsSpace(s[0]) then
      var r := TrimLeft(s[1..]);
      assert s[1..][|s| - 1 - |r|..] == s[|s| - |r|..];
      forall i | 1 <= i < |s| - |r| ensures IsSpace(s[i]) { assert s[i] == s[1..][i - 1]; }
      r
    else s
  }

  /** `s.rstrip()`: the prefix of `s` left after dropping its trailing whitespace. */
  function TrimRight(s: string): (r: string)
    ensures |r| <= |s| && r == s[..|r|]
    ensures forall i :: |r| <= i < |s| ==> IsSpace(s[i])
    ensures r != [] ==> !IsSpace(r[|r| - 1])
  {
    if s != [] && IsSpace(s[|s| - 1]) then
      var r := TrimRight(s[..|s| - 1]);
      assert s[..|s| - 1][..|r|] == s[..|r|];
      r
    else s
  }

  /** `s.strip()`: `s` without its leading and trailing whitespace (`StripInfix` pins it down). */
  function Strip(s: string): (r: string)
    ensures |r| <= |s|
    ensures r != [] ==> !IsSpace(r[0]) && !IsSpace(r[|r| - 1])
    ensures forall c :: c in r ==> c in s
    ensures forall c :: c in s && !IsSpace(c) ==> c in r
  {
    var t := TrimLeft(s);
    var r := TrimRight(t);
    forall c | c in s && !IsSpace(c) ensures c in r {
      var i :| 0 <= i < |s| && s[i] == c;
      assert t[i - (|s| - |t|)] == c;
      assert r[i - (|s| - |t|)] == c;
    }
    r
  }

  /** The result of `strip` is the infix of `s` with only whitespace before and after it; as it
      neither starts nor ends with whitespace, this determines it. */
  lemma StripInfix(s: string)
    ensures var r := Strip(s);
            exists i :: 0 <= i <= |s| - |r| && r == s[i..i + |r|] &&
                        AllSpace(s[..i]) && AllSpace(s[i + |r|..])
  {
    InfixSlices(s, TrimLeft(s), Strip(s));
  }

  /** A prefix `r` of a suffix `t` of `s`, with whitespace around it, is an infix of `s` with
      whitespace around it. */
  lemma InfixSlices(s: string, t: string, r: string)
    requires |t| <= |s| && t == s[|s| - |t|..]
    requires forall i :: 0 <= i < |s| - |t| ==> IsSpace(s[i])
    requires |r| <= |t| && r == t[..|r|]
    requires forall i :: |r| <= i < |t| ==> IsSpace(t[i])
    ensures exists i :: 0 <= i <= |s| - |r| && r == s[i..i + |r|] &&
                        AllSpace(s[..i]) && AllSpace(s[i + |r|..])
  {
    var k := |s| - |t|;
    var tail := s[k + |r|..];
    forall j | 0 <= j < |tail| ensures IsSpace(tail[j]) {
      assert tail[j] == t[|r| + j];
    }
    assert r == s[k..k + |r|] && AllSpace(s[..k]) && AllSpace(tail);
  }

  lemma {:induction false} TrimLeftPadded(w: string, x: string)
    requires AllSpace(w)
    requires x == [] || !IsSpace(x[0])
    ensures TrimLeft(w + x) == x
  {
    if w != [] {
      assert (w + x)[1..] == w[1..] + x;
      TrimLeftPadded(w[1..], x);
    } else {
      assert w + x == x;
    }
  }

  lemma {:induction false} TrimRightPadded(x: string, w: string)
    requires AllSpace(w)
    requires x == [] || !IsSpace(x[|x| - 1])
    ensures TrimRight(x + w) == x
  {
    if w != [] {
      assert (x + w)[..|x + w| - 1] == x + w[..|w| - 1];
      TrimRightPadded(x, w[..|w| - 1]);
    } else {
      assert x + w == x;
    }
  }

  /** Stripping undoes whitespace padding: the round trip of `strip` against padding on both sides. */
  lemma StripPadded(left: string, x: string, right: string)
    requires AllSpace(left) && AllSpace(right)
    requires x == [] || (!IsSpace(x[0]) && !IsSpace(x[|x| - 1]))
    ensures Strip(left + x + right) == x
  {
    if x == [] {
      assert left + x + right == (left + right) + [];
      TrimLeftPadded(left + right, []);
    } else {
      assert left + x + right == left + (x + right);
      TrimLeftPadded(left, x + right);
      TrimRightPadded(x, right);
    }
  }

  /** Trailing whitespace after a word that ends in a non-space is stripped from the right only. */
  lemma {:induction false} TrimRightAfter(x: string, y: string)
    requires x != [] && !IsSpace(x[|x| - 1])
    ensures TrimRight(x + y) == x + TrimRight(y)
  {
    if y != [] && IsSpace(y[|y| - 1]) {
      assert (x + y)[..|x + y| - 1] == x + y[..|y| - 1];
      TrimRightAfter(x, y[..|y| - 1]);
    } else if y == [] {
      assert x + y == x;
    }
  }

  /** A string with no whitespace at either end is its own `strip()`; in particular `strip` is idempotent. */
  lemma StripUnpadded(x: string)
    requires x == [] || (!IsSpace(x[0]) && !IsSpace(x[|x| - 1]))
    ensures Strip(x) == x
  {
    StripPadded([], x, []);
    assert [] + x + [] == x;
  }

  lemma StripIdempotent(s: string)
    ensures Strip(Strip(s)) == Strip(s)
  {
    StripUnpadded(Strip(s));
  }

  /** `s.replace(c, '')` for a one-character `c`: every occurrence of `c` removed, the rest kept in order. */
  function RemoveChar(s: string, c: char): (r: string)
    ensures |r| <= |s|
    ensures c !in r
  {
    if s == [] then []
    else (if s[0] == c then [] else [s[0]]) + RemoveChar(s[1..], c)
  }

  /** Removing a character that neither starts nor ends `s` keeps the first and the last character. */
  lemma RemoveCharEnds(s: string, c: char)
    requires s != [] && s[0] != c && s[|s| - 1] != c
    ensures RemoveChar(s, c) != []
    ensures RemoveChar(s, c)[0] == s[0] && RemoveChar(s, c)[|RemoveChar(s, c)| - 1] == s[|s| - 1]
  {
    var n := |s| - 1;
    assert s == s[..n] + [s[n]];
    RemoveCharAppend(s[..n], [s[n]], c);
    assert RemoveChar([s[n]], c) == [s[n]];
  }

  /** What `replace` keeps: exactly the characters of `s` other than `c`. */
  lemma {:induction false} RemoveCharMembers(s: string, c: char)
    ensures forall x :: x in RemoveChar(s, c) <==> x in s && x != c
  {
    if s != [] {
      RemoveCharMembers(s[1..], c);
      assert s == [s[0]] + s[1..];
    }
  }

  lemma {:induction false} RemoveCharAppend(a: string, b: string, c: char)
    ensures RemoveChar(a + b, c) == RemoveChar(a, c) + RemoveChar(b, c)
  {
    if a == [] {
      assert a + b == b;
    } else {
      assert (a + b)[1..] == a[1..] + b;
      RemoveCharAppend(a[1..], b, c);
    }
  }

  /** Removing a character that does not occur changes nothing. */
  lemma {:induction false} RemoveCharAbsent(s: string, c: char)
    requires c !in s
    ensures RemoveChar(s, c) == s
  {
    if s != [] {
      RemoveCharAbsent(s[1..], c);
    }
  }

  /** `sep.join(parts)`, the inverse of `Split`. */
  function Join(parts: seq<string>, sep: char): string
  {
    if |parts| == 0 then []
    else if |parts| == 1 then parts[0]
    else parts[0] + [sep] + Join(parts[1..], sep)
  }

  /** `s.split(sep)` for a one-character separator: the pieces between consecutive separators,
      always at least one (the empty string splits into `[""]`). */
  function Split(s: string, sep: char): (parts: seq<string>)
    ensures |parts| >= 1
    ensures forall p :: p in parts ==> sep !in p
    ensures Join(parts, sep) == s
  {
    if s == [] then [[]]
    else
      var rest := Split(s[1..], sep);
      if s[0] == sep then [[]] + rest
      else
        assert [s[0]] + Join(rest, sep) == s;
        [[s[0]] + rest[0]] + rest[1..]
  }

  lemma {:induction false} SplitNoSeparator(a: string, sep: char)
    requires sep !in a
    ensures Split(a, sep) == [a]
  {
    if a != [] {
      SplitNoSeparator(a[1..], sep);
      assert [a[0]] + a[1..] == a;
    }
  }

  lemma {:induction false} SplitAfterPiece(a: string, sep: char, b: string)
    requires sep !in a
    ensures Split(a + [sep] + b, sep) == [a] + Split(b, sep)
  {
    if a == [] {
      assert a + [sep] + b == [sep] + b;
      assert ([sep] + b)[1..] == b;
    } else {
      assert (a + [sep] + b)[1..] == a[1..] + [sep] + b;
      SplitAfterPiece(a[1..], sep, b);
      assert [a[0]] + a[1..] == a;
    }
  }

  /** Splitting a join gives the pieces back, as long as no piece holds the separator. */
  lemma {:induction false} SplitJoin(parts: seq<string>, sep: char)
    requires |parts| >= 1
    requires forall i :: 0 <= i < |parts| ==> sep !in parts[i]
    ensures Split(Join(parts, sep), sep) == parts
  {
    if |parts| == 1 {
      SplitNoSeparator(parts[0], sep);
    } else {
      SplitJoin(parts[1..], sep);
      SplitAfterPiece(parts[0], sep, Join(parts[1..], sep));
      assert [parts[0]] + parts[1..] == parts;
    }
  }

  /** The longest prefix of `s` without whitespace. */
  function LeadingWord(s: string): (w: string)
    ensures |w| <= |s| && w == s[..|w|]
    ensures NoSpace(w)
    ensures |w| < |s| ==> IsSpace(s[|w|])
  {
    if s == [] || IsSpace(s[0]) then [] else [s[0]] + LeadingWord(s[1..])
  }

  /** `s.split()` with no argument: the maximal runs of non-whitespace, in order. */
  function Words(s: string): (ws: seq<string>)
    decreases |s|
  {
    var t := TrimLeft(s);
    if t == [] then []
    else
      var w := LeadingWord(t);
      [w] + Words(t[|w|..])
  }

  /** Every word is non-empty and free of whitespace. */
  lemma {:induction false} WordsAreWords(s: string)
    ensures forall w :: w in Words(s) ==> w != [] && NoSpace(w)
    decreases |s|
  {
    var t := TrimLeft(s);
    if t != [] {
      var w := LeadingWord(t);
      WordsAreWords(t[|w|..]);
    }
  }

  /** There are no words exactly when the string is blank. */
  lemma WordsEmpty(s: string)
    ensures Words(s) == [] <==> AllSpace(s)
  {
    var t := TrimLeft(s);
    if t == [] {
    } else {
      assert s[|s| - |t|] == t[0];
    }
  }

  /** A word followed by whitespace (or nothing) is the first element of `split()`, and the rest
      is split on its own. */
  lemma WordsPrefix(w: string, rest: string)
    requires w != [] && NoSpace(w)
    requires rest == [] || IsSpace(rest[0])
    ensures Words(w + rest) == [w] + Words(rest)
  {
    TrimLeftPadded([], w + rest);
    assert [] + (w + rest) == w + rest;
    LeadingWordOf(w, rest);
    assert (w + rest)[|w|..] == rest;
  }

  lemma {:induction false} LeadingWordOf(w: string, rest: string)
    requires NoSpace(w)
    requires rest == [] || IsSpace(rest[0])
    ensures LeadingWord(w + rest) == w
  {
    if w != [] {
      assert (w + rest)[1..] == w[1..] + rest;
      LeadingWordOf(w[1..], rest);
      assert [w[0]] + w[1..] == w;
    } else {
      assert w + rest == rest;
    }
  }

  function LowerChar(c: char): (d: char)
  {
    if 'A' <= c <= 'Z' then (c as int - 'A' as int + 'a' as int) as char else c
  }

  /** `s.lower()` for ASCII: each upper-case letter replaced by its lower-case letter. */
  function Lower(s: string): (r: string)
    ensures |r| == |s|
    ensures forall i :: 0 <= i < |s| ==> r[i] == LowerChar(s[i])
  {
    seq(|s|, i requires 0 <= i < |s| => LowerChar(s[i]))
  }

  predicate NoUpper(s: string) {
    forall i :: 0 <= i < |s| ==> !('A' <= s[i] <= 'Z')
  }

  /** Two strings that differ only in the case of ASCII letters. */
  predicate EqualIgnoringCase(a: string, b: string) {
    |a| == |b| && forall i :: 0 <= i < |a| ==> LowerChar(a[i]) == LowerChar(b[i])
  }

  lemma LowerHasNoUpper(s: string)
    ensures NoUpper(Lower(s)) && Lower(Lower(s)) == Lower(s)
  {
  }

  /** `lower()` identifies exactly the strings that are equal up to case. */
  lemma LowerEqualIff(a: string, b: string)
    ensures Lower(a) == Lower(b) <==> EqualIgnoringCase(a, b)
  {
    if Lower(a) == Lower(b) {
      assert |a| == |b|;
      forall i | 0 <= i < |a| ensures LowerChar(a[i]) == LowerChar(b[i]) {
        assert Lower(a)[i] == Lower(b)[i];
      }
    }
  }

  /** The first word of a stripped text that starts (after blanks) with the word `w`. */
  lemma FirstWordOfPadded(left: string, w: string, rest: string)
    requires AllSpace(left)
    requires w != [] && NoSpace(w)
    requires rest == [] || IsSpace(rest[0])
    ensures |Words(Strip(left + w + rest))| >= 1 && Words(Strip(left + w + rest))[0] == w
  {
    assert left + w + rest == left + (w + rest);
    TrimLeftPadded(left, w + rest);
    TrimRightAfter(w, rest);
    var tail := TrimRight(rest);
    assert tail == [] || IsSpace(tail[0]);
    WordsPrefix(w, tail);
  }
}
