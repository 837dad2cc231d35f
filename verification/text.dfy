/** The handful of Python `str` operations the modelled code relies on: whitespace
    stripping, `replace('  ', ' ')`, `split(sep)`, `replace(c, '')`, the `in`
    substring test and ASCII case mapping for `lower`, `upper` and `title`. */
module Text {

  /** Python's `str.isspace()` on one character. */
  predicate IsSpace(c: char) {
    var n := c as int;
    || (9 <= n <= 13) || (28 <= n <= 32) || n == 0x85 || n == 0xA0 || n == 0x1680
    || (0x2000 <= n <= 0x200A) || n == 0x2028 || n == 0x2029 || n == 0x202F
    || n == 0x205F || n == 0x3000
  }

  predicate IsAscii(s: string) {
    forall i :: 0 <= i < |s| ==> s[i] as int < 128
  }

  /** True iff `sub` occurs in `s` (Python's `sub in s`). */
  predicate Contains(s: string, sub: string)
    decreases |s|
  {
    sub <= s || (s != [] && Contains(s[1..], sub))
  }

  // ---------------------------------------------------------------------------
  // ASCII case mapping

  predicate IsUpper(c: char) { 'A' <= c <= 'Z' }

  predicate IsLower(c: char) { 'a' <= c <= 'z' }

  /** A cased character in the sense of `str.title()`. */
  predicate IsLetter(c: char) { IsUpper(c) || IsLower(c) }

  function LowerChar(c: char): (r: char)
    ensures !IsUpper(r)
    ensures IsLetter(r) == IsLetter(c)
    ensures !IsUpper(c) ==> r == c
  {
    if IsUpper(c) then (c as int + 32) as char else c
  }

  function UpperChar(c: char): (r: char)
    ensures !IsLower(r)
    ensures IsLetter(r) == IsLetter(c)
    ensures !IsLower(c) ==> r == c
  {
    if IsLower(c) then (c as int - 32) as char else c
  }

  function Lower(s: string): (r: string)
    ensures |r| == |s|
    ensures forall i :: 0 <= i < |s| ==> r[i] == LowerChar(s[i])
  {
    seq(|s|, i requires 0 <= i < |s| => LowerChar(s[i]))
  }

  function Upper(s: string): (r: string)
    ensures |r| == |s|
    ensures forall i :: 0 <= i < |s| ==> r[i] == UpperChar(s[i])
  {
    seq(|s|, i requires 0 <= i < |s| => UpperChar(s[i]))
  }

  /** Whether position `i` of `s` begins a word for `str.title()`: the character
      before it (or, at position 0, the state carried in) is not cased. */
  predicate StartsWord(s: string, i: nat, prevCased: bool)
    requires i < |s|
  {
    if i == 0 then !prevCased else !IsLetter(s[i - 1])
  }

  /** `str.title()` as a left-to-right scan that remembers whether the previous
      character was cased. */
  function TitleFrom(s: string, prevCased: bool): (r: string)
    ensures |r| == |s|
    ensures s != [] ==> r[0] == if prevCased then LowerChar(s[0]) else UpperChar(s[0])
  {
    if s == [] then []
    else
      var c := if prevCased then LowerChar(s[0]) else UpperChar(s[0]);
      [c] + TitleFrom(s[1..], IsLetter(c))
  }

  /** A word start is upper-cased and every other character lower-cased. */
  lemma {:induction false} TitleFromAt(s: string, prevCased: bool, i: nat)
    requires i < |s|
    ensures TitleFrom(s, prevCased)[i] == if StartsWord(s, i, prevCased) then UpperChar(s[i]) else LowerChar(s[i])
  {
    if i > 0 {
      var c := if prevCased then LowerChar(s[0]) else UpperChar(s[0]);
      TitleFromAt(s[1..], IsLetter(c), i - 1);
      assert s[1..][i - 1] == s[i];
      if i > 1 {
        assert s[1..][i - 2] == s[i - 1];
      }
    }
  }

  function Title(s: string): (r: string)
    ensures |r| == |s|
    ensures s != [] ==> r[0] == UpperChar(s[0])
  {
    TitleFrom(s, false)
  }

  // ---------------------------------------------------------------------------
  // Whitespace

  /** The characters of `s` that are not whitespace, in order. */
  function Visible(s: string): string
  {
    if s == [] then [] else (if IsSpace(s[0]) then [] else [s[0]]) + Visible(s[1..])
  }

  lemma {:induction false} VisibleAppend(a: string, b: string)
    ensures Visible(a + b) == Visible(a) + Visible(b)
  {
    if a != [] {
      var head := if IsSpace(a[0]) then [] else [a[0]];
      assert (a + b)[0] == a[0];
      assert (a + b)[1..] == a[1..] + b;
      VisibleAppend(a[1..], b);
      calc {
        Visible(a + b);
        head + Visible(a[1..] + b);
        head + (Visible(a[1..]) + Visible(b));
        (head + Visible(a[1..])) + Visible(b);
      }
    } else {
      assert a + b == b;
    }
  }

  lemma {:induction false} VisibleAllSpace(s: string)
    requires forall i :: 0 <= i < |s| ==> IsSpace(s[i])
    ensures Visible(s) == []
  {
    if s != [] {
      VisibleAllSpace(s[1..]);
    }
  }

  function StripLeft(s: string): (r: string)
    ensures |r| <= |s| && r == s[|s| - |r|..]
    ensures forall i :: 0 <= i < |s| - |r| ==> IsSpace(s[i])
    ensures r == [] || !IsSpace(r[0])
  {
    if s != [] && IsSpace(s[0]) then StripLeft(s[1..]) else s
  }

  function StripRight(s: string): (r: string)
    ensures |r| <= |s| && r == s[..|r|]
    ensures forall i :: |r| <= i < |s| ==> IsSpace(s[i])
    ensures r == [] || !IsSpace(r[|r| - 1])
  {
    if s != [] && IsSpace(s[|s| - 1]) then StripRight(s[..|s| - 1]) else s
  }

  /** Number of whitespace characters `str.strip()` removes from the front of `s`. */
  function LeadingSpaces(s: string): (n: nat)
    ensures n <= |s|
  {
    |s| - |StripLeft(s)|
  }

  /** Python's `str.strip()`: `r` is the slice of `s` left after removing the
      whitespace at both ends, and it neither starts nor ends with whitespace. */
  function Strip(s: string): (r: string)
    ensures LeadingSpaces(s) + |r| <= |s|
    ensures r == s[LeadingSpaces(s)..LeadingSpaces(s) + |r|]
    ensures forall i :: 0 <= i < LeadingSpaces(s) ==> IsSpace(s[i])
    ensures forall i :: LeadingSpaces(s) + |r| <= i < |s| ==> IsSpace(s[i])
    ensures r == [] || (!IsSpace(r[0]) && !IsSpace(r[|r| - 1]))
  {
    StripRight(StripLeft(s))
  }

  lemma StripKeepsVisible(s: string)
    ensures Visible(Strip(s)) == Visible(s)
  {
    var a := LeadingSpaces(s);
    var r := Strip(s);
    var b := a + |r|;
    var pre, post := s[..a], s[b..];
    SliceThree(s, a, b);
    assert r == s[a..b];
    assert forall i :: 0 <= i < |pre| ==> IsSpace(pre[i]) by {
      forall i | 0 <= i < |pre| ensures IsSpace(pre[i]) {
        assert pre[i] == s[i];
      }
    }
    assert forall i :: 0 <= i < |post| ==> IsSpace(post[i]) by {
      forall i | 0 <= i < |post| ensures IsSpace(post[i]) {
        assert post[i] == s[b + i];
      }
    }
    VisibleAllSpace(pre);
    VisibleAllSpace(post);
    VisibleAppend(pre + r, post);
    VisibleAppend(pre, r);
  }

  lemma SliceThree(s: string, a: nat, b: nat)
    requires a <= b <= |s|
    ensures s == s[..a] + s[a..b] + s[b..]
  {
  }

  /** Python's `s.replace('  ', ' ')`: one left-to-right pass that replaces each
      non-overlapping pair of spaces by a single space. */
  function CollapseDoubleSpaces(s: string): (r: string)
    ensures |r| <= |s|
    ensures s == [] <==> r == []
    ensures s != [] && s[0] != ' ' ==> r[0] == s[0]
    ensures s != [] && s[|s| - 1] != ' ' ==> r[|r| - 1] == s[|s| - 1]
  {
    if |s| >= 2 && s[0] == ' ' && s[1] == ' ' then [' '] + CollapseDoubleSpaces(s[2..])
    else if s == [] then []
    else [s[0]] + CollapseDoubleSpaces(s[1..])
  }

  /** Only spaces are deleted: the visible characters are kept, in order. */
  lemma {:induction false} CollapseKeepsVisible(s: string)
    ensures Visible(CollapseDoubleSpaces(s)) == Visible(s)
  {
    if |s| >= 2 && s[0] == ' ' && s[1] == ' ' {
      CollapseKeepsVisible(s[2..]);
      VisibleAppend([' '], CollapseDoubleSpaces(s[2..]));
      assert s == [' '] + ([' '] + s[2..]);
      VisibleAppend([' '], [' '] + s[2..]);
      VisibleAppend([' '], s[2..]);
    } else if s != [] {
      CollapseKeepsVisible(s[1..]);
      VisibleAppend([s[0]], CollapseDoubleSpaces(s[1..]));
      assert s == [s[0]] + s[1..];
      VisibleAppend([s[0]], s[1..]);
    }
  }

  /** A string without a double space is left as it is. */
  lemma {:induction false} CollapseFixedPoint(s: string)
    requires !Contains(s, "  ")
    ensures CollapseDoubleSpaces(s) == s
  {
    if s != [] {
      assert !("  " <= s);
      assert !Contains(s[1..], "  ");
      CollapseFixedPoint(s[1..]);
      assert CollapseDoubleSpaces(s) == [s[0]] + CollapseDoubleSpaces(s[1..]);
      assert [s[0]] + s[1..] == s;
    }
  }

  // ---------------------------------------------------------------------------
  // Splitting and character removal

  /** Joins `parts` with `sep` between consecutive parts (Python's `sep.join`). */
  function Join(parts: seq<string>, sep: char): string
    requires |parts| >= 1
  {
    if |parts| == 1 then parts[0] else parts[0] + [sep] + Join(parts[1..], sep)
  }

  /** Python's `s.split(sep)` for a one-character separator: never empty, and
      no part contains the separator. */
  function Split(s: string, sep: char): (parts: seq<string>)
    ensures |parts| >= 1
    ensures forall k :: 0 <= k < |parts| ==> sep !in parts[k]
  {
    if s == [] then [""]
    else
      var rest := Split(s[1..], sep);
      if s[0] == sep then
        [""] + rest
      else
        var parts := [[s[0]] + rest[0]] + rest[1..];
        assert parts[1..] == rest[1..];
        parts
  }

  /** Joining the parts back with the separator gives the split string. */
  lemma {:induction false} JoinSplit(s: string, sep: char)
    ensures Join(Split(s, sep), sep) == s
  {
    if s != [] {
      var rest := Split(s[1..], sep);
      JoinSplit(s[1..], sep);
      if s[0] == sep {
        assert Split(s, sep) == [""] + rest;
        assert Split(s, sep)[1..] == rest;
      } else {
        SplitCons(s, sep);
        var parts := Split(s, sep);
        if |rest| == 1 {
          assert parts == [[s[0]] + rest[0]];
        } else {
          assert parts[1..] == rest[1..];
          assert Join(rest, sep) == rest[0] + [sep] + Join(rest[1..], sep);
        }
      }
      assert s == [s[0]] + s[1..];
    }
  }

  /** Splitting undoes joining when no part contains the separator. */
  lemma {:induction false} SplitJoin(parts: seq<string>, sep: char)
    requires |parts| >= 1
    requires forall k :: 0 <= k < |parts| ==> sep !in parts[k]
    ensures Split(Join(parts, sep), sep) == parts
  {
    if |parts| == 1 {
      SplitNoSeparator(parts[0], sep);
    } else {
      SplitJoin(parts[1..], sep);
      SplitPrefix(parts[0], [sep] + Join(parts[1..], sep), sep);
      assert parts[0] + [sep] + Join(parts[1..], sep) == parts[0] + ([sep] + Join(parts[1..], sep));
      assert ([sep] + Join(parts[1..], sep))[1..] == Join(parts[1..], sep);
      assert [parts[0]] + parts[1..] == parts;
    }
  }

  lemma {:induction false} SplitNoSeparator(s: string, sep: char)
    requires sep !in s
    ensures Split(s, sep) == [s]
  {
    if s != [] {
      SplitNoSeparator(s[1..], sep);
      assert s == [s[0]] + s[1..];
    }
  }

  /** Splitting a separator-free word followed by a separator and a tail. */
  lemma {:induction false} SplitPrefix(w: string, t: string, sep: char)
    requires sep !in w
    requires t != [] && t[0] == sep
    ensures Split(w + t, sep) == [w] + Split(t[1..], sep)
  {
    if w == [] {
      assert w + t == t;
    } else {
      var s := w + t;
      SplitPrefix(w[1..], t, sep);
      assert s[1..] == w[1..] + t;
      assert s[0] == w[0];
      SplitCons(s, sep);
      assert [w[0]] + w[1..] == w;
    }
  }

  lemma SplitCons(s: string, sep: char)
    requires s != [] && s[0] != sep
    ensures var rest := Split(s[1..], sep); Split(s, sep) == [[s[0]] + rest[0]] + rest[1..]
  {
  }

  /** Python's `s.replace(c, '')`. */
  function RemoveChar(s: string, c: char): (r: string)
    ensures c !in r
    ensures forall x :: x in r <==> x in s && x != c
    ensures c !in s ==> r == s
  {
    if s == [] then [] else (if s[0] == c then [] else [s[0]]) + RemoveChar(s[1..], c)
  }

  /** Removing `c` ignores a trailing `c`. */
  lemma {:induction false} RemoveCharSnoc(s: string, c: char)
    ensures RemoveChar(s + [c], c) == RemoveChar(s, c)
  {
    if s != [] {
      assert (s + [c])[1..] == s[1..] + [c];
      RemoveCharSnoc(s[1..], c);
    }
  }

  /** The characters of a join: the separator (between two parts) and those of the parts. */
  lemma {:induction false} JoinMember(parts: seq<string>, sep: char, x: char)
    requires |parts| >= 1
    ensures x in Join(parts, sep)
        <==> (x == sep && |parts| > 1) || exists k :: 0 <= k < |parts| && x in parts[k]
  {
    if |parts| > 1 {
      JoinMember(parts[1..], sep, x);
      assert Join(parts, sep) == parts[0] + ([sep] + Join(parts[1..], sep));
      if exists k :: 0 <= k < |parts| - 1 && x in parts[1..][k] {
        var k :| 0 <= k < |parts| - 1 && x in parts[1..][k];
        assert parts[1..][k] == parts[k + 1];
      }
      if exists k :: 0 <= k < |parts| && x in parts[k] {
        var k :| 0 <= k < |parts| && x in parts[k];
        if k > 0 {
          assert parts[1..][k - 1] == parts[k];
        }
      }
    }
  }
}
