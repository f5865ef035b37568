/** The few JavaScript string operations the locale logic relies on:
    `split` with a one-character separator, `join`, `startsWith`, `slice`
    with one argument, `trim`, and reading an array slot that may be past
    the end (which yields `undefined`). */
module JsString {

  datatype Option<T> = None | Some(value: T)

  /** Index of the first occurrence of `c` in `s`, or `|s|` when there is none. */
  function FirstIndex(s: string, c: char): (i: nat)
    ensures i <= |s|
    ensures i < |s| ==> s[i] == c
  {
    if s == [] then 0
    else if s[0] == c then 0
    else 1 + FirstIndex(s[1..], c)
  }

  /** No separator occurs before `FirstIndex`. */
  lemma {:induction false} FirstIndexIsFirst(s: string, c: char)
    ensures c !in s[..FirstIndex(s, c)]
  {
    if s != [] && s[0] != c {
      FirstIndexIsFirst(s[1..], c);
      assert s[..FirstIndex(s, c)] == [s[0]] + s[1..][..FirstIndex(s[1..], c)];
    }
  }

  /** Behind a separator-free prefix, the search resumes in what follows. */
  lemma {:induction false} FirstIndexAppend(a: string, c: char, b: string)
    requires c !in a
    ensures FirstIndex(a + b, c) == |a| + FirstIndex(b, c)
    decreases |a|
  {
    if a == [] {
      assert a + b == b;
    } else {
      assert (a + b)[0] == a[0];
      assert (a + b)[1..] == a[1..] + b;
      assert a[0] in a;
      FirstIndexAppend(a[1..], c, b);
    }
  }

  /** Without a separator, the search runs to the end. */
  lemma {:induction false} FirstIndexAbsent(a: string, c: char)
    requires c !in a
    ensures FirstIndex(a, c) == |a|
  {
    FirstIndexAppend(a, c, []);
    assert a + [] == a;
  }

  /** `s.split(c)`: the maximal pieces of `s` between occurrences of `c`.
      There is always at least one piece; `"".split(c)` is `[""]`. */
  function Split(s: string, c: char): (parts: seq<string>)
    ensures |parts| >= 1
    decreases |s|
  {
    var i := FirstIndex(s, c);
    if i == |s| then [s] else [s[..i]] + Split(s[i + 1..], c)
  }

  /** `parts.join(c)`. */
  function Join(parts: seq<string>, c: char): (s: string)
    ensures |parts| >= 1 ==> |parts[0]| <= |s| && s[..|parts[0]|] == parts[0]
  {
    if |parts| == 0 then ""
    else if |parts| == 1 then parts[0]
    else parts[0] + [c] + Join(parts[1..], c)
  }

  /** `arr[i]` in JavaScript: `undefined` (here `None`) past the end. */
  function At(arr: seq<string>, i: nat): (r: Option<string>)
    ensures r.Some? <==> i < |arr|
    ensures r.Some? ==> r.value == arr[i]
  {
    if i < |arr| then Some(arr[i]) else None
  }

  /** `s.startsWith(prefix)`. */
  predicate StartsWith(s: string, prefix: string)
  {
    |prefix| <= |s| && s[..|prefix|] == prefix
  }

  /** `s.slice(n)` for `n >= 0`: the suffix from index `n`, empty past the end. */
  function Slice(s: string, n: nat): (r: string)
    ensures n <= |s| ==> s == s[..n] + r
    ensures n >= |s| ==> r == ""
  {
    if n <= |s| then s[n..] else ""
  }

  /** The characters `String.prototype.trim` removes: ECMAScript's WhiteSpace
      (tab, vertical tab, form feed, space, no-break space, the byte order mark
      and every space separator) and LineTerminator (LF, CR, the line and
      paragraph separators). */
  predicate IsWhitespace(ch: char)
  {
    || ch == '\t' || ch == '\n' || ch == '\U{000B}' || ch == '\U{000C}' || ch == '\r'
    || ch == ' ' || ch == '\U{00A0}' || ch == '\U{1680}'
    || ('\U{2000}' <= ch <= '\U{200A}')
    || ch == '\U{2028}' || ch == '\U{2029}' || ch == '\U{202F}' || ch == '\U{205F}'
    || ch == '\U{3000}' || ch == '\U{FEFF}'
  }

  predicate AllWhitespace(s: string)
  {
    forall k :: 0 <= k < |s| ==> IsWhitespace(s[k])
  }

  /** `s.trimStart()`. */
  function TrimStart(s: string): (r: string)
  {
    if s != [] && IsWhitespace(s[0]) then TrimStart(s[1..]) else s
  }

  /** `s.trimEnd()`. */
  function TrimEnd(s: string): (r: string)
  {
    if s != [] && IsWhitespace(s[|s| - 1]) then TrimEnd(s[..|s| - 1]) else s
  }

  /** `s.trim()`. */
  function Trim(s: string): (r: string)
    ensures |r| <= |s|
    ensures r != [] ==> !IsWhitespace(r[0]) && !IsWhitespace(r[|r| - 1])
  {
    TrimStartSpec(s);
    TrimEndSpec(TrimStart(s));
    TrimEnd(TrimStart(s))
  }

  // ---------------------------------------------------------------------
  // Properties of split and join
  // ---------------------------------------------------------------------

  /** Every piece of a split is free of the separator. */
  lemma {:induction false} SplitPiecesFree(s: string, c: char)
    ensures forall k :: 0 <= k < |Split(s, c)| ==> c !in Split(s, c)[k]
    decreases |s|
  {
    FirstIndexIsFirst(s, c);
    var i := FirstIndex(s, c);
    if i < |s| {
      SplitPiecesFree(s[i + 1..], c);
    }
  }

  /** The first piece of a split is the text before the first separator. */
  lemma {:induction false} SplitHead(s: string, c: char)
    ensures Split(s, c)[0] == s[..FirstIndex(s, c)]
  {
  }

  /** Splitting at the first separator: the head piece, then the pieces of the rest. */
  lemma {:induction false} SplitAtFirst(s: string, c: char)
    requires FirstIndex(s, c) < |s|
    ensures Split(s, c) == [s[..FirstIndex(s, c)]] + Split(s[FirstIndex(s, c) + 1..], c)
  {
  }

  /** Joining the pieces of a split gives back the original string. */
  lemma {:induction false} JoinSplit(s: string, c: char)
    ensures Join(Split(s, c), c) == s
    decreases |s|
  {
    var i := FirstIndex(s, c);
    if i < |s| {
      var rest := s[i + 1..];
      JoinSplit(rest, c);
      SplitAtFirst(s, c);
      JoinCons(s[..i], Split(rest, c), c);
      assert s == s[..i] + [c] + rest;
    }
  }

  /** A string without the separator splits into itself alone. */
  lemma {:induction false} SplitNoSeparator(a: string, c: char)
    requires c !in a
    ensures Split(a, c) == [a]
  {
    FirstIndexAbsent(a, c);
  }

  /** Splitting `a c b` where `a` has no `c` peels off `a` as the first piece. */
  lemma {:induction false} SplitCons(a: string, c: char, b: string)
    requires c !in a
    ensures Split(a + [c] + b, c) == [a] + Split(b, c)
  {
    var s := a + [c] + b;
    assert s == a + ([c] + b);
    FirstIndexAppend(a, c, [c] + b);
    assert FirstIndex(s, c) == |a|;
    assert s[..|a|] == a;
    assert s[|a| + 1..] == b;
  }

  /** Split distributes over a separator: `(a c b).split(c) == a.split(c) + b.split(c)`. */
  lemma {:induction false} SplitConcat(a: string, c: char, b: string)
    ensures Split(a + [c] + b, c) == Split(a, c) + Split(b, c)
    decreases |a|
  {
    var i := FirstIndex(a, c);
    FirstIndexIsFirst(a, c);
    if i == |a| {
      assert a[..i] == a;
      SplitNoSeparator(a, c);
      SplitCons(a, c, b);
    } else {
      var pre, post := a[..i], a[i + 1..];
      calc {
        Split(a + [c] + b, c);
      == { SplitStep(a, c, b); }
        Split(pre + [c] + (post + [c] + b), c);
      == { SplitCons(pre, c, post + [c] + b); }
        [pre] + Split(post + [c] + b, c);
      == { SplitConcat(post, c, b); }
        [pre] + (Split(post, c) + Split(b, c));
      ==
        ([pre] + Split(post, c)) + Split(b, c);
      == { SplitAtFirst(a, c); }
        Split(a, c) + Split(b, c);
      }
    }
  }

  /** Regrouping `a c b` around the first separator of `a`. */
  lemma {:induction false} SplitStep(a: string, c: char, b: string)
    requires FirstIndex(a, c) < |a|
    ensures var i := FirstIndex(a, c);
      a + [c] + b == a[..i] + [c] + (a[i + 1..] + [c] + b)
  {
    var i := FirstIndex(a, c);
    assert a == a[..i] + [c] + a[i + 1..];
  }

  /** Splitting a join of separator-free pieces gives back the pieces. */
  lemma {:induction false} SplitJoin(parts: seq<string>, c: char)
    requires |parts| >= 1
    requires forall k :: 0 <= k < |parts| ==> c !in parts[k]
    ensures Split(Join(parts, c), c) == parts
    decreases |parts|
  {
    if |parts| == 1 {
      SplitNoSeparator(parts[0], c);
    } else {
      SplitJoin(parts[1..], c);
      SplitCons(parts[0], c, Join(parts[1..], c));
      assert parts == [parts[0]] + parts[1..];
    }
  }

  /** Joining a head onto a nonempty list puts one separator between them. */
  lemma {:induction false} JoinCons(a: string, rest: seq<string>, c: char)
    requires |rest| >= 1
    ensures Join([a] + rest, c) == a + [c] + Join(rest, c)
  {
    assert ([a] + rest)[1..] == rest;
  }

  /** Two strings with the same pieces are the same string. */
  lemma {:induction false} SplitInjective(s: string, t: string, c: char)
    requires Split(s, c) == Split(t, c)
    ensures s == t
  {
    JoinSplit(s, c);
    JoinSplit(t, c);
  }

  // ---------------------------------------------------------------------
  // Properties of trim
  // ---------------------------------------------------------------------

  /** `TrimStart` removes exactly a whitespace prefix, and no more. */
  lemma {:induction false} TrimStartSpec(s: string)
    ensures |TrimStart(s)| <= |s|
    ensures s == s[..|s| - |TrimStart(s)|] + TrimStart(s)
    ensures AllWhitespace(s[..|s| - |TrimStart(s)|])
    ensures TrimStart(s) != [] ==> !IsWhitespace(TrimStart(s)[0])
    decreases |s|
  {
    if s != [] && IsWhitespace(s[0]) {
      TrimStartSpec(s[1..]);
      var r := TrimStart(s[1..]);
      var n := |s[1..]| - |r|;
      assert s[..|s| - |r|] == [s[0]] + s[1..][..n];
    }
  }

  /** `TrimEnd` keeps a prefix. */
  lemma {:induction false} TrimEndPrefix(s: string)
    ensures |TrimEnd(s)| <= |s| && TrimEnd(s) == s[..|TrimEnd(s)|]
    decreases |s|
  {
    if s != [] && IsWhitespace(s[|s| - 1]) {
      var p := s[..|s| - 1];
      TrimEndPrefix(p);
      assert p[..|TrimEnd(p)|] == s[..|TrimEnd(p)|];
    }
  }

  /** What `TrimEnd` removes is whitespace. */
  lemma {:induction false} TrimEndRemovesWhitespace(s: string)
    requires |TrimEnd(s)| <= |s|
    ensures AllWhitespace(s[|TrimEnd(s)|..])
    decreases |s|
  {
    if s != [] && IsWhitespace(s[|s| - 1]) {
      var p, ch := s[..|s| - 1], s[|s| - 1];
      TrimEndPrefix(p);
      TrimEndRemovesWhitespace(p);
      var n := |TrimEnd(p)|;
      assert s[n..] == p[n..] + [ch];
      AllWhitespaceSnoc(p[n..], ch);
    }
  }

  /** What `TrimEnd` keeps does not end in whitespace. */
  lemma {:induction false} TrimEndLast(s: string)
    ensures TrimEnd(s) != [] ==> !IsWhitespace(TrimEnd(s)[|TrimEnd(s)| - 1])
    decreases |s|
  {
    if s != [] && IsWhitespace(s[|s| - 1]) {
      TrimEndLast(s[..|s| - 1]);
    }
  }

  /** `TrimEnd` removes exactly a whitespace suffix, and no more. */
  lemma {:induction false} TrimEndSpec(s: string)
    ensures |TrimEnd(s)| <= |s|
    ensures s == TrimEnd(s) + s[|TrimEnd(s)|..]
    ensures AllWhitespace(s[|TrimEnd(s)|..])
    ensures TrimEnd(s) != [] ==> !IsWhitespace(TrimEnd(s)[|TrimEnd(s)| - 1])
  {
    TrimEndPrefix(s);
    TrimEndRemovesWhitespace(s);
    TrimEndLast(s);
  }

  /** Whitespace followed by a whitespace character is whitespace. */
  lemma {:induction false} AllWhitespaceSnoc(a: string, ch: char)
    requires AllWhitespace(a) && IsWhitespace(ch)
    ensures AllWhitespace(a + [ch])
  {
    forall k | 0 <= k < |a + [ch]| ensures IsWhitespace((a + [ch])[k]) {
      if k < |a| {
        assert (a + [ch])[k] == a[k];
      }
    }
  }

  /** A string with no whitespace at either end is its own trim. */
  lemma {:induction false} TrimUnchanged(s: string)
    requires s != [] ==> !IsWhitespace(s[0]) && !IsWhitespace(s[|s| - 1])
    ensures Trim(s) == s
  {
  }
}
