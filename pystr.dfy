/** The two Python string builtins the forwarded-for parser relies on,
    `str.strip()` with no argument and `str.split(sep)` with an explicit
    one-character separator, with `sep.join(parts)` as the reference inverse
    against which `split` is specified. */
module PyStr {

  /** Python's `str.isspace()` on one character: the fixed set of code points
      CPython treats as whitespace (ASCII tab to carriage return, the four
      information separators U+001C-U+001F, space, NEL, no-break space and the
      Unicode space and line/paragraph separators). */
  predicate IsWhitespace(c: char) {
    var n := c as int;
    || (0x09 <= n <= 0x0D)
    || (0x1C <= n <= 0x20)
    || n == 0x85
    || n == 0xA0
    || n == 0x1680
    || (0x2000 <= n <= 0x200A)
    || n == 0x2028
    || n == 0x2029
    || n == 0x202F
    || n == 0x205F
    || n == 0x3000
  }

  predicate AllWhitespace(s: string) {
    forall k :: 0 <= k < |s| ==> IsWhitespace(s[k])
  }

  /** Neither the first nor the last character of `s` is whitespace. */
  predicate Unpadded(s: string) {
    s == [] || (!IsWhitespace(s[0]) && !IsWhitespace(s[|s| - 1]))
  }

  /** The first index at or after `i` that does not hold whitespace, or
      `|s|` if there is none. */
  function SkipWhitespace(s: string, i: nat): (k: nat)
    requires i <= |s|
    ensures i <= k <= |s|
    ensures forall m :: i <= m < k ==> IsWhitespace(s[m])
    ensures k < |s| ==> !IsWhitespace(s[k])
    decreases |s| - i
  {
    if i < |s| && IsWhitespace(s[i]) then SkipWhitespace(s, i + 1) else i
  }

  /** Walking back from `j` but not below `lo`: the end of the last
      character in `s[lo..j]` that is not whitespace, or `lo` if there is
      none. */
  function SkipWhitespaceBack(s: string, lo: nat, j: nat): (k: nat)
    requires lo <= j <= |s|
    ensures lo <= k <= j
    ensures forall m :: k <= m < j ==> IsWhitespace(s[m])
    ensures k > lo ==> !IsWhitespace(s[k - 1])
    decreases j
  {
    if j > lo && IsWhitespace(s[j - 1]) then SkipWhitespaceBack(s, lo, j - 1) else j
  }

  /** Python's `s.strip()`: skip whitespace from the left, then from the right
      without passing the left end, and keep what lies between. The result has
      no surrounding whitespace, is empty exactly when `s` is all whitespace,
      holds no character that `s` does not, and leaves an already unpadded
      string alone. */
  function Strip(s: string): (r: string)
    ensures Unpadded(r)
    ensures r == [] <==> AllWhitespace(s)
    ensures forall c :: c in r ==> c in s
    ensures Unpadded(s) ==> r == s
  {
    var i := SkipWhitespace(s, 0);
    var j := SkipWhitespaceBack(s, i, |s|);
    SliceHoldsNoNewChars(s, i, j);
    assert i < |s| ==> j > i;
    s[i..j]
  }

  lemma SliceHoldsNoNewChars(s: string, i: nat, j: nat)
    requires i <= j <= |s|
    ensures forall c :: c in s[i..j] ==> c in s
  {
  }

  /** Stripping twice is stripping once. */
  lemma StripIdempotent(s: string)
    ensures Strip(Strip(s)) == Strip(s)
  {
  }

  /** A reference definition of Strip: whatever whitespace surrounds an
      unpadded core, stripping gives back exactly that core. */
  lemma StripOfPadded(pre: string, core: string, post: string)
    requires AllWhitespace(pre) && AllWhitespace(post)
    requires Unpadded(core)
    ensures Strip(pre + core + post) == core
  {
    var s := pre + core + post;
    var i := SkipWhitespace(s, 0);
    var j := SkipWhitespaceBack(s, i, |s|);
    if core == [] {
      assert AllWhitespace(s) by {
        forall k | 0 <= k < |s| ensures IsWhitespace(s[k]) {
          if k < |pre| { assert s[k] == pre[k]; } else { assert s[k] == post[k - |pre|]; }
        }
      }
    } else {
      assert s[|pre|] == core[0];
      assert s[|pre| + |core| - 1] == core[|core| - 1];
      assert forall m :: 0 <= m < |pre| ==> s[m] == pre[m];
      assert forall m :: |pre| + |core| <= m < |s| ==> s[m] == post[m - |pre| - |core|];
      assert i == |pre|;
      assert j == |pre| + |core|;
      assert s[i..j] == core;
    }
  }

  /** How many times `c` occurs in `s` (Python's `s.count(c)` for one
      character); it states how many pieces Split gives. */
  function Count(s: string, c: char): (n: nat)
    decreases |s|
  {
    if s == [] then 0 else (if s[0] == c then 1 else 0) + Count(s[1..], c)
  }

  /** Python's `s.split(sep)` with an explicit separator: one more piece than
      there are separators in `s`, none of them holding the separator. Empty
      pieces are kept, and the empty string splits into one empty piece. */
  function Split(s: string, sep: char): (r: seq<string>)
    ensures |r| == Count(s, sep) + 1
    ensures forall i :: 0 <= i < |r| ==> sep !in r[i]
    decreases |s|
  {
    if s == [] then
      [""]
    else
      var rest := Split(s[1..], sep);
      if s[0] == sep then [""] + rest
      else [[s[0]] + rest[0]] + rest[1..]
  }

  /** Python's `sep.join(parts)`: the pieces with one separator between each
      neighbouring pair. Not called by the modelled code; it is the inverse
      that Split is specified against. */
  function Join(parts: seq<string>, sep: char): (s: string)
    decreases |parts|
  {
    if parts == [] then ""
    else if |parts| == 1 then parts[0]
    else parts[0] + [sep] + Join(parts[1..], sep)
  }

  /** Joining the pieces of a split gives back the string that was split. */
  lemma {:induction false} JoinSplit(s: string, sep: char)
    ensures Join(Split(s, sep), sep) == s
    decreases |s|
  {
    if s != [] {
      var rest := Split(s[1..], sep);
      JoinSplit(s[1..], sep);
      if s[0] == sep {
        assert Split(s, sep) == [""] + rest;
        assert ([""] + rest)[1..] == rest;
        assert s == [sep] + s[1..];
      } else {
        JoinExtendsHead([s[0]], rest, sep);
        assert s == [s[0]] + s[1..];
      }
    }
  }

  lemma JoinExtendsHead(x: string, parts: seq<string>, sep: char)
    requires |parts| >= 1
    ensures Join([x + parts[0]] + parts[1..], sep) == x + Join(parts, sep)
  {
  }

  /** Split is the unique inverse of Join on separator-free pieces: splitting
      a join gives back the very pieces that were joined. */
  lemma {:induction false} SplitJoin(parts: seq<string>, sep: char)
    requires |parts| >= 1
    requires forall i :: 0 <= i < |parts| ==> sep !in parts[i]
    ensures Split(Join(parts, sep), sep) == parts
    decreases |parts|
  {
    if |parts| == 1 {
      SplitNoSeparator(parts[0], sep);
    } else {
      SplitJoin(parts[1..], sep);
      SplitAfterPiece(parts[0], sep, Join(parts[1..], sep));
      assert [parts[0]] + parts[1..] == parts;
    }
  }

  lemma {:induction false} SplitNoSeparator(p: string, sep: char)
    requires sep !in p
    ensures Split(p, sep) == [p]
    decreases |p|
  {
    if p != [] {
      SplitNoSeparator(p[1..], sep);
      assert [p[0]] + p[1..] == p;
    }
  }

  lemma {:induction false} SplitAfterPiece(p: string, sep: char, s: string)
    requires sep !in p
    ensures Split(p + [sep] + s, sep) == [p] + Split(s, sep)
    decreases |p|
  {
    var t := p + [sep] + s;
    if p == [] {
      assert t[1..] == s;
    } else {
      assert t[1..] == p[1..] + [sep] + s;
      SplitAfterPiece(p[1..], sep, s);
      assert [p[0]] + p[1..] == p;
    }
  }

  /** Joining one more piece appends a separator and that piece. */
  lemma {:induction false} JoinAppend(parts: seq<string>, p: string, sep: char)
    requires |parts| >= 1
    ensures Join(parts + [p], sep) == Join(parts, sep) + [sep] + p
    decreases |parts|
  {
    var q := parts + [p];
    assert q[1..] == parts[1..] + [p];
    if |parts| > 1 {
      JoinAppend(parts[1..], p, sep);
    }
  }

  /** Splitting a string with one more separated piece at its end gives one
      more piece. */
  lemma {:induction false} SplitAppend(s: string, p: string, sep: char)
    requires sep !in p
    ensures Split(s + [sep] + p, sep) == Split(s, sep) + [p]
  {
    var pieces := Split(s, sep);
    JoinSplit(s, sep);
    JoinAppend(pieces, p, sep);
    SplitJoin(pieces + [p], sep);
  }
}
