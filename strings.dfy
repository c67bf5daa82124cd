/** The JavaScript string built-ins the shapefile parser relies on:
    String.prototype.trim, String.prototype.split with a one-character
    separator, and String.prototype.indexOf("//"). */
module Strings {

  /** The code points ECMAScript counts as WhiteSpace or LineTerminator,
      which is what trim removes from both ends of a string. */
  predicate IsWhitespace(c: char) {
    var n := c as int;
    (0x09 <= n <= 0x0D) || n == 0x20
    || (0xA0 <= n && (n == 0xA0 || n == 0x1680 || (0x2000 <= n <= 0x200A) || n == 0x2028
                      || n == 0x2029 || n == 0x202F || n == 0x205F || n == 0x3000 || n == 0xFEFF))
  }

  predicate AllWhitespace(s: string) {
    forall i :: 0 <= i < |s| ==> IsWhitespace(s[i])
  }

  /** Removes leading whitespace: the result is the suffix of s that
      starts at its first non-whitespace character. */
  function TrimStart(s: string): (r: string)
    ensures |r| <= |s|
    ensures r == [] || !IsWhitespace(r[0])
    ensures AllWhitespace(s[..|s| - |r|])
  {
    if |s| > 0 && IsWhitespace(s[0]) then
      var r := TrimStart(s[1..]);
      assert s[..|s| - |r|] == [s[0]] + s[1..][..|s| - 1 - |r|];
      r
    else s
  }

  lemma {:induction false} TrimStartSuffix(s: string)
    ensures TrimStart(s) == s[|s| - |TrimStart(s)|..]
  {
    if |s| > 0 && IsWhitespace(s[0]) {
      TrimStartSuffix(s[1..]);
    }
  }

  /** Removes trailing whitespace: the result is the prefix of s that
      ends at its last non-whitespace character. */
  function TrimEnd(s: string): (r: string)
    ensures |r| <= |s|
    ensures r == [] || !IsWhitespace(r[|r| - 1])
    ensures AllWhitespace(s[|r|..])
  {
    if |s| > 0 && IsWhitespace(s[|s| - 1]) then
      var p := s[..|s| - 1];
      var r := TrimEnd(p);
      assert s == p + [s[|s| - 1]];
      assert s[|r|..] == p[|r|..] + [s[|s| - 1]];
      r
    else s
  }

  lemma {:induction false} TrimEndPrefix(s: string)
    ensures TrimEnd(s) == s[..|TrimEnd(s)|]
  {
    if |s| > 0 && IsWhitespace(s[|s| - 1]) {
      TrimEndPrefix(s[..|s| - 1]);
    }
  }

  /** String.prototype.trim. */
  function Trim(s: string): (r: string)
    ensures r == [] || (!IsWhitespace(r[0]) && !IsWhitespace(r[|r| - 1]))
    ensures r == [] <==> AllWhitespace(s)
  {
    var t := TrimStart(s);
    var r := TrimEnd(t);
    TrimStartSuffix(s);
    TrimEndPrefix(t);
    assert r == [] ==> s == s[..|s| - |t|] + t[|r|..];
    assert r != [] ==> s[|s| - |t|] == r[0];
    r
  }

  /** Trimming keeps one slice of the input and removes only whitespace
      before and after it. */
  lemma TrimSlice(s: string) returns (i: nat, j: nat)
    ensures i <= j <= |s| && Trim(s) == s[i..j]
    ensures AllWhitespace(s[..i]) && AllWhitespace(s[j..])
  {
    var t := TrimStart(s);
    var r := TrimEnd(t);
    TrimStartSuffix(s);
    TrimEndPrefix(t);
    i := |s| - |t|;
    j := i + |r|;
    assert r == s[i..j];
    assert s[j..] == t[|r|..];
  }

  /** A string that neither starts nor ends with whitespace is its own trim. */
  lemma TrimUnchanged(s: string)
    requires s == [] || (!IsWhitespace(s[0]) && !IsWhitespace(s[|s| - 1]))
    ensures Trim(s) == s
  {
  }

  /** String.prototype.split with a one-character separator: the pieces
      between consecutive occurrences of sep (always at least one piece). */
  function Split(s: string, sep: char): (r: seq<string>)
    ensures |r| >= 1
    ensures forall i :: 0 <= i < |r| ==> sep !in r[i]
  {
    if s == [] then [[]]
    else
      var rest := Split(s[1..], sep);
      if s[0] == sep then [[]] + rest else [[s[0]] + rest[0]] + rest[1..]
  }

  /** Joins pieces with a one-character separator. The parser never joins;
      this is the inverse of Split that the lemmas below reason with. */
  function Join(parts: seq<string>, sep: char): string {
    if parts == [] then []
    else if |parts| == 1 then parts[0]
    else parts[0] + [sep] + Join(parts[1..], sep)
  }

  /** Splitting loses nothing: joining the pieces restores the string. */
  lemma {:induction false} JoinSplit(s: string, sep: char)
    ensures Join(Split(s, sep), sep) == s
  {
    if s != [] {
      var rest := Split(s[1..], sep);
      JoinSplit(s[1..], sep);
      if s[0] == sep {
        assert Split(s, sep) == [[]] + rest;
        assert s == [] + [sep] + s[1..];
      } else if |rest| == 1 {
        assert s == [s[0]] + s[1..];
      } else {
        var r := Split(s, sep);
        assert r[1..] == rest[1..];
        assert Join(rest, sep) == rest[0] + [sep] + Join(rest[1..], sep);
        assert s == [s[0]] + s[1..];
      }
    }
  }

  /** Splitting at one occurrence of the separator splits the two sides
      independently; this holds for every a and b, whatever they contain. */
  lemma {:induction false} SplitAround(a: string, sep: char, b: string)
    ensures Split(a + [sep] + b, sep) == Split(a, sep) + Split(b, sep)
  {
    if a == [] {
      assert a + [sep] + b == [sep] + b;
      assert ([sep] + b)[1..] == b;
    } else {
      var s := a + [sep] + b;
      assert s[0] == a[0];
      assert s[1..] == a[1..] + [sep] + b;
      SplitAround(a[1..], sep, b);
    }
  }

  /** A string without the separator is a single piece. */
  lemma {:induction false} SplitNoSeparator(s: string, sep: char)
    requires sep !in s
    ensures Split(s, sep) == [s]
  {
    if s != [] {
      SplitNoSeparator(s[1..], sep);
      assert s == [s[0]] + s[1..];
    }
  }

  /** Joining pieces that do not contain the separator, then splitting,
      gives the pieces back. */
  lemma {:induction false} SplitJoin(parts: seq<string>, sep: char)
    requires |parts| >= 1
    requires forall i :: 0 <= i < |parts| ==> sep !in parts[i]
    ensures Split(Join(parts, sep), sep) == parts
  {
    if |parts| == 1 {
      SplitNoSeparator(parts[0], sep);
    } else {
      SplitJoin(parts[1..], sep);
      SplitAround(parts[0], sep, Join(parts[1..], sep));
      SplitNoSeparator(parts[0], sep);
      assert parts == [parts[0]] + parts[1..];
    }
  }

  /** Every piece of a whitespace-only string is whitespace-only. */
  lemma {:induction false} SplitWhitespace(s: string, sep: char)
    requires AllWhitespace(s)
    ensures forall i :: 0 <= i < |Split(s, sep)| ==> AllWhitespace(Split(s, sep)[i])
  {
    if s != [] {
      SplitWhitespace(s[1..], sep);
      var rest := Split(s[1..], sep);
      assert forall i :: 0 <= i < |rest| ==> AllWhitespace(rest[i]);
      if s[0] != sep {
        var r := Split(s, sep);
        assert r[0] == [s[0]] + rest[0];
        forall i | 0 <= i < |r| ensures AllWhitespace(r[i]) {
          if i > 0 { assert r[i] == rest[i]; }
        }
      }
    }
  }

  /** A comment marker "//" starts at index j of s. */
  predicate CommentAt(s: string, j: int) {
    0 <= j < |s| - 1 && s[j] == '/' && s[j + 1] == '/'
  }

  /** A slice of a string without comment markers has none either. */
  lemma NoCommentInSlice(s: string, i: nat, j: nat)
    requires i <= j <= |s|
    requires forall m :: !CommentAt(s, m)
    ensures forall m :: !CommentAt(s[i..j], m)
  {
    forall m | 0 <= m < j - i - 1 ensures !CommentAt(s[i..j], m) {
      assert !CommentAt(s, i + m);
    }
  }

  /** String.prototype.indexOf("//"): the index of the first comment
      marker, or -1 when there is none. */
  function IndexOfComment(s: string): (k: int)
    ensures k == -1 || CommentAt(s, k)
    ensures forall j :: 0 <= j && (k == -1 || j < k) ==> !CommentAt(s, j)
  {
    if |s| < 2 then -1
    else if s[0] == '/' && s[1] == '/' then 0
    else
      var k := IndexOfComment(s[1..]);
      assert forall j :: 1 <= j ==> (CommentAt(s, j) <==> CommentAt(s[1..], j - 1));
      if k == -1 then -1 else k + 1
  }

  /** The first comment marker is determined by where it is and that none
      comes before it. */
  lemma IndexOfCommentIs(s: string, k: int)
    requires CommentAt(s, k)
    requires forall j :: 0 <= j < k ==> !CommentAt(s, j)
    ensures IndexOfComment(s) == k
  {
  }
}
