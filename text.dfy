/**
 * The Python `str` operations the blog calls, stated over `seq<char>`:
 * `strip` and `rstrip` (with Python's own whitespace set), `lower`,
 * `replace` of one character, `endswith`, `join`, and the code-point order
 * Python uses when comparing strings. `Split` (Python's `split` on one
 * character) is not called by the blog; it is here to read a post file back
 * line by line, in the lemmas about the text `Post.to_file` writes.
 */
module Text {

  // ---------------------------------------------------------------------
  // Whitespace and stripping
  // ---------------------------------------------------------------------

  /** Python's `str.isspace()` for one character: the characters `strip()`
      removes when it is called without arguments. */
  predicate IsSpace(c: char) {
    || '\U{9}' <= c <= '\U{D}'
    || '\U{1C}' <= c <= '\U{20}'
    || c == '\U{85}' || c == '\U{A0}' || c == '\U{1680}'
    || '\U{2000}' <= c <= '\U{200A}'
    || c == '\U{2028}' || c == '\U{2029}' || c == '\U{202F}'
    || c == '\U{205F}' || c == '\U{3000}'
  }

  predicate AllSpace(s: string) {
    forall i :: 0 <= i < |s| ==> IsSpace(s[i])
  }

  /** Neither end of `s` is whitespace: the shape `strip()` leaves behind. */
  predicate Trimmed(s: string) {
    s == [] || (!IsSpace(s[0]) && !IsSpace(s[|s| - 1]))
  }

  /** Length of the whitespace run at the start of `s`. */
  function LeadingSpace(s: string): (n: nat)
    ensures n <= |s|
    ensures forall i :: 0 <= i < n ==> IsSpace(s[i])
    ensures n < |s| ==> !IsSpace(s[n])
  {
    if s != [] && IsSpace(s[0]) then 1 + LeadingSpace(s[1..]) else 0
  }

  /** Length of the whitespace run at the end of `s`. */
  function TrailingSpace(s: string): (n: nat)
    ensures n <= |s|
    ensures forall i :: |s| - n <= i < |s| ==> IsSpace(s[i])
    ensures n < |s| ==> !IsSpace(s[|s| - 1 - n])
  {
    if s != [] && IsSpace(s[|s| - 1]) then 1 + TrailingSpace(s[..|s| - 1]) else 0
  }

  /** Python's `s.rstrip()`: a prefix of `s` that does not end in whitespace
      and is followed only by whitespace. */
  function RStrip(s: string): (r: string)
    ensures r <= s
    ensures AllSpace(s[|r|..])
    ensures r == [] || !IsSpace(r[|r| - 1])
  {
    s[..|s| - TrailingSpace(s)]
  }

  /** Python's `s.strip()`. */
  function Strip(s: string): (r: string)
    ensures Trimmed(r)
    ensures |r| <= |s|
  {
    RStrip(s[LeadingSpace(s)..])
  }

  lemma {:induction false} LeadingSpaceAfter(a: string, t: string)
    requires AllSpace(a)
    ensures LeadingSpace(a + t) == |a| + LeadingSpace(t)
  {
    if a != [] {
      assert (a + t)[1..] == a[1..] + t;
      LeadingSpaceAfter(a[1..], t);
    } else {
      assert a + t == t;
    }
  }

  lemma {:induction false} TrailingSpaceBefore(t: string, b: string)
    requires AllSpace(b)
    ensures TrailingSpace(t + b) == TrailingSpace(t) + |b|
  {
    if b != [] {
      assert (t + b)[..|t + b| - 1] == t + b[..|b| - 1];
      TrailingSpaceBefore(t, b[..|b| - 1]);
    } else {
      assert t + b == t;
    }
  }

  /** `rstrip` removes exactly the trailing whitespace and nothing else. */
  lemma RStripExact(m: string, b: string)
    requires AllSpace(b)
    requires m == [] || !IsSpace(m[|m| - 1])
    ensures RStrip(m + b) == m
  {
    TrailingSpaceBefore(m, b);
    assert (m + b)[..|m|] == m;
  }

  /** `strip` removes exactly the surrounding whitespace: whatever whitespace
      surrounds a string with non-blank ends, stripping gives that string. */
  lemma StripExact(a: string, m: string, b: string)
    requires AllSpace(a) && AllSpace(b) && Trimmed(m)
    ensures Strip(a + m + b) == m
  {
    var t := m + b;
    Associate(a, m, b);
    LeadingSpaceAfter(a, t);
    DropPrefix(a, t);
    if m == [] {
      AllSpaceAppend(m, b);
      StripAllSpaceTail(a + t, |a|);
    } else {
      assert t[0] == m[0];
      RStripExact(m, b);
    }
  }

  /** Once the leading whitespace is taken off, nothing but whitespace is
      left, so `strip` leaves nothing. */
  lemma StripAllSpaceTail(s: string, i: nat)
    requires i <= |s| && AllSpace(s[i..]) && LeadingSpace(s) == i + LeadingSpace(s[i..])
    ensures Strip(s) == []
  {
    AllSpaceLeading(s[i..]);
  }

  lemma AllSpaceAppend(a: string, b: string)
    requires AllSpace(a) && AllSpace(b)
    ensures AllSpace(a + b)
  {
    forall k | 0 <= k < |a + b| ensures IsSpace((a + b)[k]) {
      if k >= |a| {
        assert (a + b)[k] == b[k - |a|];
      }
    }
  }

  /** A whitespace-only string is all leading whitespace. */
  lemma AllSpaceLeading(t: string)
    requires AllSpace(t)
    ensures LeadingSpace(t) == |t|
  {
    LeadingSpaceAfter(t, []);
    assert t + [] == t;
  }

  /** The input is its leading whitespace, the stripped text, and what
      follows. */
  lemma StripSplits(s: string)
    ensures LeadingSpace(s) + |Strip(s)| <= |s|
    ensures Strip(s) == s[LeadingSpace(s)..LeadingSpace(s) + |Strip(s)|]
    ensures s == s[..LeadingSpace(s)] + Strip(s) + s[LeadingSpace(s) + |Strip(s)|..]
  {
    var i := LeadingSpace(s);
    var t := s[i..];
    var r := RStrip(t);
    var j := i + |r|;
    assert r == t[..|r|];
    TakeOfDrop(s, i, |r|);
    SliceThree(s, i, j);
  }

  /** What `strip` takes off either end is whitespace. */
  lemma StripEdgesAreSpace(s: string)
    requires LeadingSpace(s) + |Strip(s)| <= |s|
    ensures AllSpace(s[..LeadingSpace(s)])
    ensures AllSpace(s[LeadingSpace(s) + |Strip(s)|..])
  {
    var i := LeadingSpace(s);
    var t := s[i..];
    var r := RStrip(t);
    forall k | 0 <= k < i ensures IsSpace(s[..i][k]) {
      assert s[..i][k] == s[k];
    }
    DropTwice(s, i, |r|);
    assert AllSpace(t[|r|..]);
  }

  /** `strip` only takes whitespace off the two ends: the input is the
      stripped text with a run of whitespace on either side. */
  lemma StripRemovesOnlyEdgeSpace(s: string)
    ensures LeadingSpace(s) + |Strip(s)| <= |s|
    ensures s == s[..LeadingSpace(s)] + Strip(s) + s[LeadingSpace(s) + |Strip(s)|..]
    ensures AllSpace(s[..LeadingSpace(s)])
    ensures AllSpace(s[LeadingSpace(s) + |Strip(s)|..])
  {
    StripSplits(s);
    StripEdgesAreSpace(s);
  }

  lemma StripIdempotent(s: string)
    ensures Strip(Strip(s)) == Strip(s)
  {
    StripExact([], Strip(s), []);
    assert [] + Strip(s) + [] == Strip(s);
  }

  /** A trailing newline, like any trailing whitespace, is gone after
      `strip`. */
  lemma StripDropsTrailingNewline(t: string)
    ensures Strip(t + "\n") == Strip(t)
  {
    StripRemovesOnlyEdgeSpace(t);
    var i, m := LeadingSpace(t), Strip(t);
    var a, b := t[..i], t[i + |m|..];
    Associate(a + m, b, "\n");
    AllSpaceAppend(b, "\n");
    StripExact(a, m, b + "\n");
  }

  /** A string is left unchanged by `strip` exactly when its ends are not
      whitespace. */
  lemma StripFixpoint(s: string)
    ensures Strip(s) == s <==> Trimmed(s)
  {
    if Trimmed(s) {
      StripExact([], s, []);
      assert [] + s + [] == s;
    }
  }

  /** `strip` leaves nothing exactly when the input is all whitespace. */
  lemma StripEmpty(s: string)
    ensures Strip(s) == [] <==> AllSpace(s)
  {
    if AllSpace(s) {
      StripExact(s, [], []);
      assert s + [] + [] == s;
    } else {
      StripRemovesOnlyEdgeSpace(s);
    }
  }

  // ---------------------------------------------------------------------
  // Case folding
  // ---------------------------------------------------------------------

  /** The characters whose Python `lower()` is a different ASCII character:
      A-Z and the Kelvin sign. */
  predicate ChangesCase(c: char) {
    'A' <= c <= 'Z' || c == '\U{212A}'
  }

  /** Python's `c.lower()` for one character, restricted to the characters of
      `ChangesCase`; every other character is its own lower case here. */
  function LowerChar(c: char): char
  {
    if 'A' <= c <= 'Z' then (c as int + 32) as char
    else if c == '\U{212A}' then 'k'
    else c
  }

  /** Python's `s.lower()` on the case mappings of `LowerChar`. */
  function Lower(s: string): (r: string)
    ensures |r| == |s|
  {
    seq(|s|, i requires 0 <= i < |s| => LowerChar(s[i]))
  }

  lemma LowerAppend(a: string, b: string)
    ensures Lower(a + b) == Lower(a) + Lower(b)
  {
  }

  /** A string none of whose characters changes case is its own lower case. */
  lemma LowerUnchanged(s: string)
    requires forall i :: 0 <= i < |s| ==> !ChangesCase(s[i])
    ensures Lower(s) == s
  {
  }

  /** No character of a lowered string changes case again, so `lower` is
      idempotent. */
  lemma LowerIsLower(s: string)
    ensures forall i :: 0 <= i < |Lower(s)| ==> !ChangesCase(Lower(s)[i])
    ensures Lower(Lower(s)) == Lower(s)
  {
  }

  /** Lowering never creates or removes whitespace at either end. */
  lemma LowerKeepsTrimmed(m: string)
    requires Trimmed(m)
    ensures Trimmed(Lower(m))
  {
  }

  /** Lowering a whitespace-only string changes nothing. */
  lemma LowerSpace(s: string)
    requires AllSpace(s)
    ensures Lower(s) == s
  {
    LowerUnchanged(s);
  }

  /** Stripping and lowering commute. */
  lemma StripLowerCommute(s: string)
    ensures Strip(Lower(s)) == Lower(Strip(s))
  {
    StripRemovesOnlyEdgeSpace(s);
    var i := LeadingSpace(s);
    var m := Strip(s);
    var a, b := s[..i], s[i + |m|..];
    LowerAppend(a + m, b);
    LowerAppend(a, m);
    LowerSpace(a);
    LowerSpace(b);
    LowerKeepsTrimmed(m);
    StripExact(a, Lower(m), b);
  }

  // ---------------------------------------------------------------------
  // Replace, endswith
  // ---------------------------------------------------------------------

  /** Python's `s.replace(from, to)` for one-character `from` and `to`. */
  function Replace(s: string, from: char, to: char): (r: string)
    ensures |r| == |s|
  {
    seq(|s|, i requires 0 <= i < |s| => if s[i] == from then to else s[i])
  }

  /** Python's `s.endswith(suffix)`. */
  predicate EndsWith(s: string, suffix: string) {
    |suffix| <= |s| && s[|s| - |suffix|..] == suffix
  }

  // ---------------------------------------------------------------------
  // Split and join on a one-character separator
  // ---------------------------------------------------------------------

  /** Python's `sep.join(parts)`. */
  function Join(parts: seq<string>, sep: string): string
  {
    if parts == [] then ""
    else if |parts| == 1 then parts[0]
    else parts[0] + sep + Join(parts[1..], sep)
  }

  /** Python's `s.split(sep)` for a one-character separator: the pieces
      between separators, the empty ones included. */
  function Split(s: string, sep: char): (r: seq<string>)
    ensures |r| >= 1
  {
    if s == [] then [""]
    else
      var rest := Split(s[1..], sep);
      if s[0] == sep then [""] + rest
      else [[s[0]] + rest[0]] + rest[1..]
  }

  /** Text without the separator splits into itself alone. */
  lemma {:induction false} SplitNoSep(s: string, sep: char)
    requires sep !in s
    ensures Split(s, sep) == [s]
  {
    if s != [] {
      SplitNoSep(s[1..], sep);
      assert [s[0]] + s[1..] == s;
    }
  }

  /** A piece without the separator, then the separator, splits off as the
      first element. */
  lemma {:induction false} SplitCons(a: string, sep: char, rest: string)
    requires sep !in a
    ensures Split(a + [sep] + rest, sep) == [a] + Split(rest, sep)
  {
    var t := a + [sep] + rest;
    if a == [] {
      assert t == [sep] + rest;
      assert t[1..] == rest;
    } else {
      assert t[0] == a[0];
      assert t[1..] == a[1..] + [sep] + rest;
      SplitCons(a[1..], sep, rest);
      assert [a[0]] + a[1..] == a;
    }
  }

  /** A trailing separator adds one empty element at the end. */
  lemma {:induction false} SplitAppendSep(s: string, sep: char)
    ensures Split(s + [sep], sep) == Split(s, sep) + [""]
  {
    var t := s + [sep];
    if s == [] {
      assert t == [sep];
      assert t[1..] == [];
    } else {
      assert t[0] == s[0];
      assert t[1..] == s[1..] + [sep];
      SplitAppendSep(s[1..], sep);
    }
  }

  lemma JoinConsHead(x: string, parts: seq<string>, sep: string)
    requires parts != []
    ensures Join([x + parts[0]] + parts[1..], sep) == x + Join(parts, sep)
  {
    var q := [x + parts[0]] + parts[1..];
    assert q[1..] == parts[1..];
  }

  /** One more piece at the end adds the separator and that piece. */
  lemma {:induction false} JoinSnoc(parts: seq<string>, x: string, sep: string)
    requires parts != []
    ensures Join(parts + [x], sep) == Join(parts, sep) + sep + x
  {
    var q := parts + [x];
    if |parts| > 1 {
      assert q[1..] == parts[1..] + [x];
      JoinSnoc(parts[1..], x, sep);
    } else {
      assert q[1..] == [x];
    }
  }

  /** Four pieces joined by a separator. */
  lemma JoinFour(a: string, b: string, c: string, d: string, sep: string)
    ensures Join([a, b, c, d], sep) == a + sep + (b + sep + (c + sep + d))
  {
    JoinCons(a, [b, c, d], sep);
    JoinCons(b, [c, d], sep);
    JoinCons(c, [d], sep);
  }

  lemma JoinCons(x: string, parts: seq<string>, sep: string)
    requires parts != []
    ensures Join([x] + parts, sep) == x + sep + Join(parts, sep)
  {
    assert ([x] + parts)[1..] == parts;
  }

  /** Splitting separator-free pieces joined by the separator, followed by
      the separator and more text, gives the pieces and then the split of
      the rest. */
  lemma {:induction false} SplitJoinThen(parts: seq<string>, sep: char, rest: string)
    requires parts != []
    requires forall k :: 0 <= k < |parts| ==> sep !in parts[k]
    ensures Split(Join(parts, [sep]) + [sep] + rest, sep) == parts + Split(rest, sep)
  {
    if |parts| == 1 {
      SplitCons(parts[0], sep, rest);
    } else {
      var p0, j := parts[0], Join(parts[1..], [sep]);
      SplitJoinThen(parts[1..], sep, rest);
      JoinCons(p0, parts[1..], [sep]);
      assert [p0] + parts[1..] == parts;
      Regroup(p0 + [sep], j, [sep], rest);
      SplitCons(p0, sep, j + [sep] + rest);
      Associate([p0], parts[1..], Split(rest, sep));
    }
  }

  /** Joining the pieces of a split gives the original text back. */
  lemma {:induction false} JoinSplit(s: string, sep: char)
    ensures Join(Split(s, sep), [sep]) == s
  {
    if s != [] {
      var rest := Split(s[1..], sep);
      JoinSplit(s[1..], sep);
      if s[0] == sep {
        assert ([""] + rest)[1..] == rest;
      } else {
        JoinConsHead([s[0]], rest, [sep]);
      }
      assert [s[0]] + s[1..] == s;
    }
  }

  /** Splitting a join of separator-free pieces gives the pieces back. */
  lemma {:induction false} SplitJoin(parts: seq<string>, sep: char)
    requires parts != []
    requires forall k :: 0 <= k < |parts| ==> sep !in parts[k]
    ensures Split(Join(parts, [sep]), sep) == parts
  {
    if |parts| == 1 {
      SplitNoSep(parts[0], sep);
    } else {
      SplitJoin(parts[1..], sep);
      SplitCons(parts[0], sep, Join(parts[1..], [sep]));
      assert parts == [parts[0]] + parts[1..];
    }
  }

  // ---------------------------------------------------------------------
  // String order
  // ---------------------------------------------------------------------

  /** Python's `a <= b` on strings: lexicographic by code point, a proper
      prefix first. */
  predicate LexLe(a: string, b: string)
  {
    if a == [] then true
    else if b == [] then false
    else if a[0] != b[0] then a[0] < b[0]
    else LexLe(a[1..], b[1..])
  }

  lemma {:induction false} LexLeTotal(a: string, b: string)
    ensures LexLe(a, b) || LexLe(b, a)
  {
    if a != [] && b != [] && a[0] == b[0] {
      LexLeTotal(a[1..], b[1..]);
    }
  }

  lemma {:induction false} LexLeAntisymmetric(a: string, b: string)
    requires LexLe(a, b) && LexLe(b, a)
    ensures a == b
  {
    if a != [] && b != [] {
      LexLeAntisymmetric(a[1..], b[1..]);
      assert a == [a[0]] + a[1..] && b == [b[0]] + b[1..];
    }
  }

  lemma {:induction false} LexLeTransitive(a: string, b: string, c: string)
    requires LexLe(a, b) && LexLe(b, c)
    ensures LexLe(a, c)
  {
    if a != [] && b != [] && c != [] && a[0] == b[0] == c[0] {
      LexLeTransitive(a[1..], b[1..], c[1..]);
    }
  }

  // ---------------------------------------------------------------------
  // Sequence facts
  // ---------------------------------------------------------------------

  // Identities of concatenation and slicing. Dafny knows each of them, but
  // deriving one inside a proof that also unfolds the recursive functions
  // above is costly, so those proofs call these instead.

  lemma Associate<T>(a: seq<T>, m: seq<T>, b: seq<T>)
    ensures a + m + b == a + (m + b)
  {
  }

  lemma Regroup<T>(a: seq<T>, b: seq<T>, c: seq<T>, d: seq<T>)
    ensures a + b + c + d == a + (b + c + d)
  {
  }

  lemma DropPrefix<T>(a: seq<T>, t: seq<T>)
    ensures (a + t)[|a|..] == t
  {
  }

  lemma DropTwice<T>(s: seq<T>, i: nat, j: nat)
    requires i + j <= |s|
    ensures s[i..][j..] == s[i + j..]
  {
  }

  lemma TakeOfDrop<T>(s: seq<T>, i: nat, n: nat)
    requires i + n <= |s|
    ensures s[i..][..n] == s[i..i + n]
  {
  }

  lemma SliceThree<T>(s: seq<T>, i: nat, j: nat)
    requires i <= j <= |s|
    ensures s == s[..i] + s[i..j] + s[j..]
  {
  }

  /** With one of `v` and `w` empty, their order does not matter. */
  lemma SwapAroundEmpty<T>(u: seq<T>, v: seq<T>, w: seq<T>)
    requires v == [] || w == []
    ensures u + v + w == u + w + v
  {
    if v == [] {
      assert u + v == u;
    } else {
      assert u + v + w == u + v;
    }
  }

  lemma MultisetSnoc<T>(s: seq<T>)
    requires s != []
    ensures multiset(s) == multiset(s[..|s| - 1]) + multiset{s[|s| - 1]}
  {
    assert s == s[..|s| - 1] + [s[|s| - 1]];
  }
}
