/** The handful of JavaScript string operations the batch-rename pipeline relies
    on, written out over `seq<char>`: `trim()` emptiness, `lastIndexOf`,
    `includes`, `toLowerCase` and the comparison used when sorting. */
module Strings {

  /** The characters `String.prototype.trim` removes: the ECMAScript
      WhiteSpace and LineTerminator code points. */
  predicate IsJsSpace(c: char) {
    c == ' ' || c == '\t' || c == '\n' || c == '\r' || c == '\U{000B}' || c == '\U{000C}'
    || c == '\U{00A0}' || c == '\U{1680}' || ('\U{2000}' <= c <= '\U{200A}')
    || c == '\U{2028}' || c == '\U{2029}' || c == '\U{202F}' || c == '\U{205F}'
    || c == '\U{3000}' || c == '\U{FEFF}'
  }

  /** `!s.trim()`: the string is empty or consists of whitespace only. */
  predicate IsBlank(s: string) {
    forall i :: 0 <= i < |s| ==> IsJsSpace(s[i])
  }

  /** `s.lastIndexOf(c)` for a one-character needle: -1 when absent. */
  function LastIndexOf(s: string, c: char): (k: int)
    ensures -1 <= k < |s|
    ensures k >= 0 ==> s[k] == c
    ensures forall j :: k < j < |s| ==> s[j] != c
  {
    if |s| == 0 then -1
    else if s[|s| - 1] == c then |s| - 1
    else LastIndexOf(s[..|s| - 1], c)
  }

  /** `s.includes(t)`. */
  predicate Contains(s: string, t: string)
    decreases |s|
  {
    (|t| <= |s| && s[..|t|] == t) || (|s| > 0 && Contains(s[1..], t))
  }

  /** No character `a` of `s` from index `i` on is directly followed by `b`,
      stated position by position so that it unfolds on a literal. */
  predicate NoPairFrom(s: string, a: char, b: char, i: nat)
    decreases |s| - i
  {
    i + 1 >= |s| || (!(s[i] == a && s[i + 1] == b) && NoPairFrom(s, a, b, i + 1))
  }

  /** No character `a` of `s` is directly followed by `b`. */
  predicate NoPairIn(s: string, a: char, b: char) {
    forall j :: 0 <= j < |s| - 1 ==> !(s[j] == a && s[j + 1] == b)
  }

  lemma {:induction false} NoPairFromAll(s: string, a: char, b: char, i: nat)
    requires NoPairFrom(s, a, b, i)
    ensures forall j :: i <= j < |s| - 1 ==> !(s[j] == a && s[j + 1] == b)
    decreases |s| - i
  {
    if i + 1 < |s| {
      NoPairFromAll(s, a, b, i + 1);
    }
  }

  /** Two strings without the pair, joined where the pair does not form, give
      a string without it. */
  lemma NoPairJoin(x: string, y: string, a: char, b: char)
    requires NoPairIn(x, a, b) && NoPairIn(y, a, b)
    requires |x| == 0 || |y| == 0 || !(x[|x| - 1] == a && y[0] == b)
    ensures NoPairIn(x + y, a, b)
  {
    var s := x + y;
    forall j | 0 <= j < |s| - 1 ensures !(s[j] == a && s[j + 1] == b) {
      if j + 1 < |x| {
        assert s[j] == x[j] && s[j + 1] == x[j + 1];
      } else if j >= |x| {
        assert s[j] == y[j - |x|] && s[j + 1] == y[j + 1 - |x|];
      }
    }
  }

  /** `s` does not include `t` when `t` has two adjacent characters that are
      never adjacent in `s`. */
  lemma {:induction false} PairAbsent(s: string, t: string, k: nat)
    requires k + 1 < |t| && NoPairIn(s, t[k], t[k + 1])
    ensures !Contains(s, t)
    decreases |s|
  {
    if |s| > 0 {
      PairAbsent(s[1..], t, k);
    }
  }

  /** `s` does not include `t` when some character of `t` does not occur in `s`. */
  lemma {:induction false} CharAbsent(s: string, t: string, k: nat)
    requires k < |t| && t[k] !in s
    ensures !Contains(s, t)
    decreases |s|
  {
    assert |t| <= |s| ==> s[..|t|][k] == s[k];
    if |s| > 0 {
      assert forall c :: c in s[1..] ==> c in s;
      CharAbsent(s[1..], t, k);
    }
  }

  /** A string includes whatever a prefix of it includes. */
  lemma {:induction false} ContainsExtend(m: string, b: string, t: string)
    requires Contains(m, t)
    ensures Contains(m + b, t)
    decreases |m|
  {
    if |t| <= |m| && m[..|t|] == t {
      assert (m + b)[..|t|] == t;
    } else {
      ContainsExtend(m[1..], b, t);
      assert (m + b)[1..] == m[1..] + b;
    }
  }

  /** A string includes whatever a suffix of it includes. */
  lemma {:induction false} ContainsPrepend(a: string, m: string, t: string)
    requires Contains(m, t)
    ensures Contains(a + m, t)
    decreases |a|
  {
    if |a| == 0 {
      assert a + m == m;
    } else {
      ContainsPrepend(a[1..], m, t);
      assert (a + m)[1..] == a[1..] + m;
    }
  }

  /** `(a + t + b).includes(t)`. */
  /** A string followed by anything contains it. */
  lemma ShowsFirst(t: string, b: string)
    ensures Contains(t + b, t)
  {
    assert (t + b)[..|t|] == t;
  }

  lemma ContainsInfix(a: string, t: string, b: string)
    ensures Contains(a + t + b, t)
  {
    assert t[..|t|] == t;
    ContainsExtend(t, b, t);
    ContainsPrepend(a, t + b, t);
    assert a + t + b == a + (t + b);
  }

  /** `ts.join(sep)`. */
  function Join(ts: seq<string>, sep: string): (r: string)
    ensures |ts| == 0 ==> r == ""
    ensures |ts| > 0 ==> |ts[0]| <= |r| && r[..|ts[0]|] == ts[0]
  {
    if |ts| == 0 then ""
    else if |ts| == 1 then ts[0]
    else ts[0] + sep + Join(ts[1..], sep)
  }

  /** Whatever one of the joined strings includes, the joined text includes. */
  lemma {:induction false} JoinIncludes(ts: seq<string>, sep: string, i: int, w: string)
    requires 0 <= i < |ts| && Contains(ts[i], w)
    ensures Contains(Join(ts, sep), w)
    decreases |ts|
  {
    if i == 0 {
      if |ts| > 1 {
        ContainsExtend(ts[0], sep + Join(ts[1..], sep), w);
        assert ts[0] + (sep + Join(ts[1..], sep)) == Join(ts, sep);
      }
    } else {
      assert ts[1..][i - 1] == ts[i];
      JoinIncludes(ts[1..], sep, i - 1, w);
      ContainsPrepend(ts[0] + sep, Join(ts[1..], sep), w);
    }
  }

  /** A character in none of the strings nor the separator is not in the
      joined text. */
  lemma {:induction false} JoinLacks(ts: seq<string>, sep: string, c: char)
    requires c !in sep && forall i :: 0 <= i < |ts| ==> c !in ts[i]
    ensures c !in Join(ts, sep)
    decreases |ts|
  {
    if |ts| > 1 {
      assert forall i :: 0 <= i < |ts| - 1 ==> ts[1..][i] == ts[i + 1];
      JoinLacks(ts[1..], sep, c);
    }
  }

  /** Lower-casing of one character; only the ASCII letters are mapped. */
  function LowerChar(c: char): (d: char)
    ensures 'A' <= c <= 'Z' ==> 'a' <= d <= 'z' && d as int - c as int == 32
    ensures !('A' <= c <= 'Z') ==> d == c
  {
    if 'A' <= c <= 'Z' then (c as int + 32) as char else c
  }

  /** `s.toLowerCase()`, restricted to ASCII letters. */
  function ToLower(s: string): (r: string)
    ensures |r| == |s|
    ensures forall i :: 0 <= i < |s| ==> r[i] == LowerChar(s[i])
  {
    seq(|s|, i requires 0 <= i < |s| => LowerChar(s[i]))
  }

  /** Lexicographic order on code points: the stand-in for `localeCompare(...) <= 0`. */
  predicate LexLe(a: string, b: string) {
    |a| == 0 || (|b| > 0 && (a[0] < b[0] || (a[0] == b[0] && LexLe(a[1..], b[1..]))))
  }

  lemma {:induction false} LexLeTotal(a: string, b: string)
    ensures LexLe(a, b) || LexLe(b, a)
    decreases |a|
  {
    if |a| > 0 && |b| > 0 && a[0] == b[0] {
      LexLeTotal(a[1..], b[1..]);
    }
  }

  lemma {:induction false} LexLeTransitive(a: string, b: string, c: string)
    requires LexLe(a, b) && LexLe(b, c)
    ensures LexLe(a, c)
    decreases |a|
  {
    if |a| > 0 && a[0] == b[0] && b[0] == c[0] {
      LexLeTransitive(a[1..], b[1..], c[1..]);
    }
  }

  lemma {:induction false} LexLeAntisymmetric(a: string, b: string)
    requires LexLe(a, b) && LexLe(b, a)
    ensures a == b
    decreases |a|
  {
    if |a| > 0 {
      LexLeAntisymmetric(a[1..], b[1..]);
      assert a == [a[0]] + a[1..];
      assert b == [b[0]] + b[1..];
    }
  }

  /** `path.split('/').pop()`: the text after the last slash. */
  function LastSegment(path: string): (r: string)
    ensures '/' !in r
    ensures '/' !in path ==> r == path
    ensures |r| <= |path| && r == path[|path| - |r|..]
  {
    path[LastIndexOf(path, '/') + 1..]
  }

  /** `path.substring(0, path.lastIndexOf('/')) || '/'`: the text before the
      last slash, or `/` when that text is empty (including when there is no
      slash at all, since `substring(0, -1)` is the empty string). */
  function ParentPath(path: string): (p: string)
    ensures p != ""
    ensures '/' !in path ==> p == "/"
  {
    var k := LastIndexOf(path, '/');
    var prefix := if k < 0 then "" else path[..k];
    if prefix == "" then "/" else prefix
  }

  /** The parent of `dir + "/" + name` is `dir`, provided `name` holds no
      slash and `dir` is not empty. */
  lemma ParentOfJoined(dir: string, name: string)
    requires dir != "" && '/' !in name
    ensures ParentPath(dir + "/" + name) == dir
    ensures LastSegment(dir + "/" + name) == name
  {
    var p := dir + "/" + name;
    var k := LastIndexOf(p, '/');
    assert p[|dir|] == '/';
    assert forall j :: |dir| < j < |p| ==> p[j] == name[j - |dir| - 1];
    assert p[..k] == dir;
    assert p[k + 1..] == name;
  }
}
