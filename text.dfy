/**
 * The operations of Python's `str` (and of `os.path.splitext`) that the
 * metadata scan relies on, over strings as sequences of characters.
 */
module Text {

  /** Python's `str.isspace` for one character: TAB to CR, the ASCII
      separators FS to US, the space, NEL, NBSP and the Unicode spaces. */
  predicate IsSpace(c: char)
  {
    var n := c as int;
    || 9 <= n <= 13
    || 28 <= n <= 32
    || n == 0x85 || n == 0xA0 || n == 0x1680
    || 0x2000 <= n <= 0x200A
    || n == 0x2028 || n == 0x2029 || n == 0x202F || n == 0x205F || n == 0x3000
  }

  /** `s` without its leading whitespace. */
  function StripLeft(s: string): (r: string)
    ensures |r| <= |s| && r == s[|s| - |r|..]
    ensures forall k | 0 <= k < |s| - |r| :: IsSpace(s[k])
    ensures r != [] ==> !IsSpace(r[0])
  {
    if s != [] && IsSpace(s[0]) then StripLeft(s[1..]) else s
  }

  /** `s` without its trailing whitespace. */
  function StripRight(s: string): (r: string)
    ensures |r| <= |s| && r == s[..|r|]
    ensures forall k | |r| <= k < |s| :: IsSpace(s[k])
    ensures r != [] ==> !IsSpace(r[|r| - 1])
  {
    if s != [] && IsSpace(s[|s| - 1]) then StripRight(s[..|s| - 1]) else s
  }

  /** `r` is the slice of `s` starting at `i`, and everything of `s`
      outside it is whitespace. */
  predicate TrimmedAt(s: string, i: int, r: string)
  {
    && 0 <= i <= |s| - |r|
    && r == s[i..i + |r|]
    && (forall k | 0 <= k < i :: IsSpace(s[k]))
    && (forall k | i + |r| <= k < |s| :: IsSpace(s[k]))
  }

  /** Python's `s.strip()`: the slice of `s` left after removing the
      whitespace at both ends. */
  function Strip(s: string): (r: string)
    ensures exists i | 0 <= i <= |s| :: TrimmedAt(s, i, r)
    ensures r != [] ==> !IsSpace(r[0]) && !IsSpace(r[|r| - 1])
  {
    var left := StripLeft(s);
    var r := StripRight(left);
    assert TrimmedAt(s, |s| - |left|, r);
    r
  }

  /** Leading whitespace does not change what `StripLeft` leaves. */
  lemma {:induction false} StripLeftSpaces(pre: string, s: string)
    requires forall k | 0 <= k < |pre| :: IsSpace(pre[k])
    ensures StripLeft(pre + s) == StripLeft(s)
  {
    if pre == [] {
      assert pre + s == s;
    } else {
      var t := pre + s;
      assert t[0] == pre[0] && t[1..] == pre[1..] + s;
      StripLeftSpaces(pre[1..], s);
    }
  }

  /** Trailing whitespace does not change what `StripRight` leaves. */
  lemma {:induction false} StripRightSpaces(s: string, post: string)
    requires forall k | 0 <= k < |post| :: IsSpace(post[k])
    ensures StripRight(s + post) == StripRight(s)
  {
    if post == [] {
      assert s + post == s;
    } else {
      var n := |post| - 1;
      var t := s + post;
      assert t[|t| - 1] == post[n] && t[..|t| - 1] == s + post[..n];
      StripRightSpaces(s, post[..n]);
    }
  }

  /** `StripLeft` keeps a text that does not start with whitespace. */
  lemma StripLeftKeeps(s: string)
    requires s != [] && !IsSpace(s[0])
    ensures StripLeft(s) == s
  {
  }

  /** `StripRight` keeps a text that does not end with whitespace. */
  lemma StripRightKeeps(s: string)
    requires s != [] && !IsSpace(s[|s| - 1])
    ensures StripRight(s) == s
  {
  }

  /** Stripping a text padded with whitespace on both sides gives back the
      text, when the text itself neither starts nor ends with whitespace. */
  lemma StripAround(pre: string, core: string, post: string)
    requires forall k | 0 <= k < |pre| :: IsSpace(pre[k])
    requires forall k | 0 <= k < |post| :: IsSpace(post[k])
    requires core != [] ==> !IsSpace(core[0]) && !IsSpace(core[|core| - 1])
    ensures Strip(pre + core + post) == core
  {
    var rest := core + post;
    assert pre + core + post == pre + rest;
    StripLeftSpaces(pre, rest);
    var left := StripLeft(rest);
    if core == [] {
      assert rest == post + [];
      StripLeftSpaces(post, []);
      assert left == [];
    } else {
      assert rest[0] == core[0];
      StripLeftKeeps(rest);
      StripRightSpaces(core, post);
      StripRightKeeps(core);
      assert StripRight(left) == core;
    }
  }

  /** Number of occurrences of `c` in `s`. */
  function Count(s: string, c: char): nat
  {
    if s == [] then 0 else (if s[0] == c then 1 else 0) + Count(s[1..], c)
  }

  /** Python's `s.split(d)` for a one-character separator: `k` separators
      give `k + 1` fields, and empty fields are kept. */
  function Split(s: string, d: char): (fields: seq<string>)
    ensures |fields| == Count(s, d) + 1
    ensures forall i | 0 <= i < |fields| :: d !in fields[i]
  {
    if s == [] then [[]]
    else
      var rest := Split(s[1..], d);
      if s[0] == d then [[]] + rest
      else [[s[0]] + rest[0]] + rest[1..]
  }

  /** Python's `d.join(fields)`: the inverse of `Split`. */
  function Join(fields: seq<string>, d: char): string
    requires fields != []
  {
    if |fields| == 1 then fields[0] else fields[0] + [d] + Join(fields[1..], d)
  }

  /** A join starts with the first field, or with the separator when the
      first of several fields is empty. */
  lemma JoinStart(fields: seq<string>, d: char)
    requires fields != []
    ensures var s := Join(fields, d); var f := fields[0];
      if f != [] then s != [] && s[0] == f[0]
      else if |fields| > 1 then s != [] && s[0] == d
      else s == []
  {
  }

  /** A join ends with the last field, or with the separator when the last
      of several fields is empty. */
  lemma {:induction false} JoinEnd(fields: seq<string>, d: char)
    requires fields != []
    ensures var s := Join(fields, d); var l := fields[|fields| - 1];
      if l != [] then s != [] && s[|s| - 1] == l[|l| - 1]
      else if |fields| > 1 then s != [] && s[|s| - 1] == d
      else s == []
  {
    if |fields| > 1 {
      JoinEnd(fields[1..], d);
    }
  }

  /** Splitting and joining again gives back the original string. */
  lemma {:induction false} JoinSplit(s: string, d: char)
    ensures Join(Split(s, d), d) == s
  {
    if s != [] {
      var rest := Split(s[1..], d);
      JoinSplit(s[1..], d);
      assert s == [s[0]] + s[1..];
      if s[0] == d {
        assert ([[]] + rest)[1..] == rest;
      } else if |rest| > 1 {
        assert ([[s[0]] + rest[0]] + rest[1..])[1..] == rest[1..];
      }
    }
  }

  lemma {:induction false} SplitWithoutSeparator(p: string, d: char)
    requires d !in p
    ensures Split(p, d) == [p]
  {
    if p != [] {
      SplitWithoutSeparator(p[1..], d);
      assert [p[0]] + p[1..] == p;
    }
  }

  lemma {:induction false} SplitAfterField(p: string, t: string, d: char)
    requires d !in p
    ensures Split(p + [d] + t, d) == [p] + Split(t, d)
  {
    var s := p + [d] + t;
    if p == [] {
      assert s[1..] == t;
    } else {
      assert s[1..] == p[1..] + [d] + t;
      SplitAfterField(p[1..], t, d);
      assert [p[0]] + p[1..] == p;
    }
  }

  /** Joining separator-free fields and splitting again gives back the
      fields. */
  lemma {:induction false} SplitJoin(fields: seq<string>, d: char)
    requires fields != []
    requires forall i | 0 <= i < |fields| :: d !in fields[i]
    ensures Split(Join(fields, d), d) == fields
  {
    if |fields| == 1 {
      SplitWithoutSeparator(fields[0], d);
    } else {
      SplitJoin(fields[1..], d);
      SplitAfterField(fields[0], Join(fields[1..], d), d);
      assert [fields[0]] + fields[1..] == fields;
    }
  }

  /** Python's `str.lower` on one character, for the ASCII letters. */
  function LowerChar(c: char): char
  {
    if 'A' <= c <= 'Z' then (c as int + 32) as char else c
  }

  /** Python's `s.lower()`, for the ASCII letters. */
  function Lower(s: string): (r: string)
    ensures |r| == |s|
    ensures forall i | 0 <= i < |s| :: r[i] == LowerChar(s[i])
  {
    if s == [] then [] else [LowerChar(s[0])] + Lower(s[1..])
  }

  /** Lowercasing a string without capital letters leaves it unchanged. */
  lemma LowerWithoutCapitals(s: string)
    requires forall i | 0 <= i < |s| :: !('A' <= s[i] <= 'Z')
    ensures Lower(s) == s
  {
    assert forall i | 0 <= i < |s| :: Lower(s)[i] == s[i];
  }

  /** Python's `sub in s`: `sub` occurs in `s` at some offset. */
  predicate Contains(s: string, sub: string)
  {
    exists i | 0 <= i <= |s| :: OccursAt(s, sub, i)
  }

  /** `sub` occurs in `s` starting at index `i`. */
  predicate OccursAt(s: string, sub: string, i: int)
  {
    0 <= i <= |s| - |sub| && s[i..i + |sub|] == sub
  }

  /** Python's `s.startswith(prefix)`. */
  predicate StartsWith(s: string, prefix: string)
  {
    prefix <= s
  }

  /** Python's `s.endswith(suffix)`. */
  predicate EndsWith(s: string, suffix: string)
  {
    |suffix| <= |s| && s[|s| - |suffix|..] == suffix
  }

  /** A string ends with what was appended to it. */
  lemma EndsWithAppended(s: string, suffix: string)
    ensures EndsWith(s + suffix, suffix)
  {
    assert (s + suffix)[|s|..] == suffix;
  }

  /** Python's `s.rfind(c)`: the last index of `c` in `s`, or -1. */
  function LastIndex(s: string, c: char): (r: int)
    ensures -1 <= r < |s|
    ensures r >= 0 ==> s[r] == c
    ensures forall k | r < k < |s| :: s[k] != c
  {
    if s == [] then -1
    else if s[|s| - 1] == c then |s| - 1
    else LastIndex(s[..|s| - 1], c)
  }

  /** `os.path.splitext(p)[0]` on POSIX: `p` without the extension of its
      last path component. The extension starts at the last dot of that
      component, unless only dots precede it there. */
  function SplitExtRoot(p: string): (root: string)
    ensures root <= p
    ensures root != p ==> p[|root|] == '.' && '.' !in p[|root| + 1..] && '/' !in p[|root|..]
  {
    var dot := LastIndex(p, '.');
    var sep := LastIndex(p, '/');
    if sep < dot && exists k | sep < k < dot :: p[k] != '.' then p[..dot] else p
  }

  /** A file name with an extension loses exactly that extension. */
  lemma StemOfFileName(name: string, ext: string)
    requires '/' !in name && '/' !in ext && '.' !in ext
    requires exists k | 0 <= k < |name| :: name[k] != '.'
    ensures SplitExtRoot(name + ['.'] + ext) == name
  {
    var p := name + ['.'] + ext;
    assert p[|name|] == '.';
    assert forall k | |name| < k < |p| :: p[k] == ext[k - |name| - 1];
    var dot := LastIndex(p, '.');
    assert dot == |name|;
    assert forall k | 0 <= k < |p| :: p[k] != '/';
    assert LastIndex(p, '/') == -1;
    var k :| 0 <= k < |name| && name[k] != '.';
    assert p[k] == name[k];
  }

  /** A string lacking some character of `sub` does not contain it. */
  lemma MissingChar(s: string, sub: string, k: nat)
    requires k < |sub| && sub[k] !in s
    ensures !Contains(s, sub)
  {
    forall i | 0 <= i <= |s| ensures !OccursAt(s, sub, i) {
      if 0 <= i <= |s| - |sub| {
        assert s[i..i + |sub|][k] == s[i + k];
      }
    }
  }
}
