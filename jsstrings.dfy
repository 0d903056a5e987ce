/** The JavaScript string built-ins that the GitHub client relies on, over
    Dafny strings: String.prototype.split with a one-character separator,
    String.prototype.trim, String.prototype.includes and a suffix test. */
module JsStrings {

  /** `s.split(sep)`: the pieces between separators, empty pieces included, so
      there is always one more piece than there are separators. */
  function Split(s: string, sep: char): (r: seq<string>)
    ensures |r| >= 1
    ensures forall i :: 0 <= i < |r| ==> sep !in r[i]
    decreases |s|
  {
    if s == [] then [""]
    else if s[0] == sep then [""] + Split(s[1..], sep)
    else
      var rest := Split(s[1..], sep);
      [[s[0]] + rest[0]] + rest[1..]
  }

  /** `parts.join(sep)`, the inverse of Split. */
  function Join(parts: seq<string>, sep: char): string
    requires |parts| >= 1
    decreases |parts|
  {
    if |parts| == 1 then parts[0] else parts[0] + [sep] + Join(parts[1..], sep)
  }

  lemma {:induction false} JoinSplit(s: string, sep: char)
    ensures Join(Split(s, sep), sep) == s
    decreases |s|
  {
    if s != [] {
      JoinSplit(s[1..], sep);
      if s[0] != sep {
        JoinConsHead(s[0], Split(s[1..], sep), sep);
      }
      assert s == [s[0]] + s[1..];
    }
  }

  /** Putting a character in front of the first piece puts it in front of
      the joined string. */
  lemma JoinConsHead(c: char, parts: seq<string>, sep: char)
    requires |parts| >= 1
    ensures Join([[c] + parts[0]] + parts[1..], sep) == [c] + Join(parts, sep)
  {
    var r := [[c] + parts[0]] + parts[1..];
    assert r[0] == [c] + parts[0] && r[1..] == parts[1..];
  }

  /** Splitting at a separator splits the pieces. */
  lemma {:induction false} SplitConcat(a: string, b: string, sep: char)
    ensures Split(a + [sep] + b, sep) == Split(a, sep) + Split(b, sep)
    decreases |a|
  {
    if a == [] {
      assert a + [sep] + b == [sep] + b;
      assert ([sep] + b)[1..] == b;
    } else {
      var s := a + [sep] + b;
      assert s[0] == a[0] && s[1..] == a[1..] + [sep] + b;
      SplitConcat(a[1..], b, sep);
      if a[0] != sep {
        var left := Split(a[1..], sep);
        var rest := Split(s[1..], sep);
        assert rest == left + Split(b, sep);
        assert rest[0] == left[0];
        assert rest[1..] == left[1..] + Split(b, sep);
      }
    }
  }

  /** A string without the separator is one piece. */
  lemma {:induction false} SplitNoSeparator(w: string, sep: char)
    requires sep !in w
    ensures Split(w, sep) == [w]
    decreases |w|
  {
    if w != [] {
      assert w[0] in w;
      assert forall c :: c in w[1..] ==> c in w;
      SplitNoSeparator(w[1..], sep);
      assert w == [w[0]] + w[1..];
    }
  }

  /** The characters String.prototype.trim removes: ECMAScript's WhiteSpace and
      LineTerminator code points. */
  predicate IsWhitespace(c: char) {
    var n := c as int;
    n == 0x09 || n == 0x0A || n == 0x0B || n == 0x0C || n == 0x0D || n == 0x20
    || n == 0xA0 || n == 0x1680 || (0x2000 <= n <= 0x200A) || n == 0x2028
    || n == 0x2029 || n == 0x202F || n == 0x205F || n == 0x3000 || n == 0xFEFF
  }

  /** Every character of `s` is whitespace (so also the empty string). */
  predicate IsBlank(s: string) {
    forall i :: 0 <= i < |s| ==> IsWhitespace(s[i])
  }

  /** Drops the leading whitespace: what is left is a suffix of `s` that does
      not start with whitespace, and everything dropped was whitespace. */
  function TrimStart(s: string): (r: string)
    ensures |r| <= |s| && r == s[|s| - |r|..]
    ensures forall i :: 0 <= i < |s| - |r| ==> IsWhitespace(s[i])
    ensures r == [] || !IsWhitespace(r[0])
    decreases |s|
  {
    if s != [] && IsWhitespace(s[0]) then TrimStart(s[1..]) else s
  }

  /** Drops the trailing whitespace, symmetrically to TrimStart. */
  function TrimEnd(s: string): (r: string)
    ensures |r| <= |s| && r == s[..|r|]
    ensures forall i :: |r| <= i < |s| ==> IsWhitespace(s[i])
    ensures r == [] || !IsWhitespace(r[|r| - 1])
    decreases |s|
  {
    if s != [] && IsWhitespace(s[|s| - 1]) then TrimEnd(s[..|s| - 1]) else s
  }

  /** `s.trim()`: the part of `s` that starts where the leading whitespace
      ends; everything before and after it is whitespace, and neither of its
      ends is. */
  function Trim(s: string): (r: string)
    ensures OccursAt(s, r, |s| - |TrimStart(s)|)
    ensures forall i :: 0 <= i < |s| - |TrimStart(s)| ==> IsWhitespace(s[i])
    ensures forall i :: |s| - |TrimStart(s)| + |r| <= i < |s| ==> IsWhitespace(s[i])
    ensures r == [] || (!IsWhitespace(r[0]) && !IsWhitespace(r[|r| - 1]))
  {
    TrimShape(s);
    TrimEnd(TrimStart(s))
  }

  lemma TrimShape(s: string)
    ensures OccursAt(s, TrimEnd(TrimStart(s)), |s| - |TrimStart(s)|)
    ensures forall i :: |s| - |TrimStart(s)| + |TrimEnd(TrimStart(s))| <= i < |s| ==> IsWhitespace(s[i])
    ensures TrimEnd(TrimStart(s)) == [] || !IsWhitespace(TrimEnd(TrimStart(s))[0])
  {
    var t := TrimStart(s);
    PrefixOfSuffix(s, t, TrimEnd(t));
    TrailOfSuffix(s, t, |TrimEnd(t)|, IsWhitespace);
  }

  /** What holds of the end of a suffix `t` of `s` holds of the end of `s`. */
  lemma TrailOfSuffix(s: string, t: string, n: nat, p: char -> bool)
    requires |t| <= |s| && t == s[|s| - |t|..]
    requires forall j :: n <= j < |t| ==> p(t[j])
    ensures forall i :: |s| - |t| + n <= i < |s| ==> p(s[i])
  {
    forall i | |s| - |t| + n <= i < |s| ensures p(s[i]) {
      assert s[i] == t[i - (|s| - |t|)];
    }
  }

  /** A prefix `r` of a suffix `t` of `s` occurs in `s` where `t` starts, and
      begins with `t`'s first element. */
  lemma PrefixOfSuffix(s: string, t: string, r: string)
    requires |t| <= |s| && t == s[|s| - |t|..]
    requires |r| <= |t| && r == t[..|r|]
    ensures OccursAt(s, r, |s| - |t|)
    ensures r != [] ==> r[0] == t[0]
  {
    assert s[|s| - |t|..|s| - |t| + |r|] == t[..|r|];
  }

  /** Trimming leaves nothing exactly when the string holds only whitespace. */
  lemma TrimEmptyIffBlank(s: string)
    ensures Trim(s) == [] <==> IsBlank(s)
  {
    var t := TrimStart(s);
    if Trim(s) == [] {
      assert |t| == 0;
    } else {
      var u := Trim(s);
      assert u[0] == t[0];
    }
  }

  /** Trimming a trimmed string changes nothing. */
  lemma TrimIdempotent(s: string)
    ensures Trim(Trim(s)) == Trim(s)
  {
    var u := Trim(s);
    if u != [] {
      assert u[0] == TrimStart(s)[0];
      assert TrimStart(u) == u;
    }
  }

  /** `sub` occurs in `s` starting at index `i`. */
  predicate OccursAt(s: string, sub: string, i: int) {
    0 <= i <= |s| - |sub| && s[i..i + |sub|] == sub
  }

  /** `s.includes(sub)`: `s` is `sub` with something before and after it. */
  predicate Includes(s: string, sub: string)
    ensures Includes(s, sub) <==> exists a, b :: a + sub + b == s
    ensures Includes(s, sub) ==> |sub| <= |s|
    ensures sub == [] ==> Includes(s, sub)
  {
    assert sub == [] ==> OccursAt(s, sub, 0);
    OccursSomewhere(s, sub);
    exists i | 0 <= i <= |s| - |sub| :: OccursAt(s, sub, i)
  }

  /** An occurrence at some index is a split of `s` around `sub`. */
  lemma OccursSomewhere(s: string, sub: string)
    ensures (exists i | 0 <= i <= |s| - |sub| :: OccursAt(s, sub, i)) <==> exists a, b :: a + sub + b == s
  {
    if exists i | 0 <= i <= |s| - |sub| :: OccursAt(s, sub, i) {
      var i :| 0 <= i <= |s| - |sub| && OccursAt(s, sub, i);
      assert s[..i] + sub + s[i + |sub|..] == s;
    }
    if exists a, b :: a + sub + b == s {
      var a, b :| a + sub + b == s;
      assert s[|a|..|a| + |sub|] == sub;
      assert OccursAt(s, sub, |a|);
    }
  }

  /** `s` ends with `suffix` (the anchored match of a regular expression
      `suffix$`): `s` is `suffix` with something in front of it. */
  predicate EndsWith(s: string, suffix: string)
    ensures EndsWith(s, suffix) <==> exists x :: x + suffix == s
    ensures EndsWith(s, suffix) ==> Includes(s, suffix)
  {
    SuffixSplit(s, suffix);
    |suffix| <= |s| && s[|s| - |suffix|..] == suffix
  }

  /** The last `|suffix|` characters are `suffix` exactly when `s` is
      something followed by `suffix`; then `suffix` occurs where it starts. */
  lemma SuffixSplit(s: string, suffix: string)
    ensures (|suffix| <= |s| && s[|s| - |suffix|..] == suffix) <==> exists x :: x + suffix == s
    ensures (|suffix| <= |s| && s[|s| - |suffix|..] == suffix) ==> OccursAt(s, suffix, |s| - |suffix|)
  {
    if |suffix| <= |s| && s[|s| - |suffix|..] == suffix {
      assert s[..|s| - |suffix|] + suffix == s;
    }
    if exists x :: x + suffix == s {
      var x :| x + suffix == s;
      assert s[|x|..] == suffix;
    }
  }
}
