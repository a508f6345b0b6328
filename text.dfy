/**
 * The string operations of the Kotlin standard library that the embedding
 * codec and the result formatting rely on: `split` with a string delimiter,
 * `joinToString`, `List.toString` and `trim`.
 */
module Text {

  /**
   * `s.split(d)` for a non-empty delimiter: cut at every occurrence of `d`
   * found scanning left to right, occurrences not overlapping. The result is
   * never empty; `"".split(d)` is `[""]`.
   */
  function Split(s: string, d: string): (r: seq<string>)
    requires |d| > 0
    ensures |r| >= 1
    decreases |s|
  {
    if |s| < |d| then [s]
    else if s[..|d|] == d then [""] + Split(s[|d|..], d)
    else
      var rest := Split(s[1..], d);
      [[s[0]] + rest[0]] + rest[1..]
  }

  /** `parts.joinToString(sep)`. */
  function Join(parts: seq<string>, sep: string): string
  {
    if |parts| == 0 then ""
    else if |parts| == 1 then parts[0]
    else parts[0] + sep + Join(parts[1..], sep)
  }

  /** `List<T>.toString()` once every element has been rendered: `[a, b, c]`. */
  function ListToString(items: seq<string>): string
  {
    "[" + Join(items, ", ") + "]"
  }

  /** The positions at which `d` occurs in `s`, overlapping occurrences included. */
  function Count(s: string, d: string): nat
    requires |d| > 0
    decreases |s|
  {
    if |s| < |d| then 0
    else (if s[..|d|] == d then 1 else 0) + Count(s[1..], d)
  }

  /** Drops the leading characters that `strip` selects. */
  function TrimStart(s: string, strip: char -> bool): string
  {
    if |s| > 0 && strip(s[0]) then TrimStart(s[1..], strip) else s
  }

  /** Drops the trailing characters that `strip` selects. */
  function TrimEnd(s: string, strip: char -> bool): string
  {
    if |s| > 0 && strip(s[|s| - 1]) then TrimEnd(s[..|s| - 1], strip) else s
  }

  /** Kotlin's `trim(predicate)` and `trim(vararg chars)`; Java's `String.trim()`. */
  function Trim(s: string, strip: char -> bool): (r: string)
    ensures |r| > 0 ==> !strip(r[0]) && !strip(r[|r| - 1])
  {
    TrimStartNoLead(s, strip);
    TrimEndKeepsHead(TrimStart(s, strip), strip);
    TrimEnd(TrimStart(s, strip), strip)
  }

  lemma {:induction false} TrimStartNoLead(s: string, strip: char -> bool)
    ensures var r := TrimStart(s, strip); |r| > 0 ==> !strip(r[0])
    ensures |TrimStart(s, strip)| <= |s|
    decreases |s|
  {
    if |s| > 0 && strip(s[0]) {
      TrimStartNoLead(s[1..], strip);
    }
  }

  /** Trimming the end keeps a prefix, so it never removes a first character it does not strip. */
  lemma {:induction false} TrimEndKeepsHead(s: string, strip: char -> bool)
    ensures var r := TrimEnd(s, strip);
      |r| <= |s| && r == s[..|r|] && (|r| > 0 ==> !strip(r[|r| - 1]))
    decreases |s|
  {
    if |s| > 0 && strip(s[|s| - 1]) {
      TrimEndKeepsHead(s[..|s| - 1], strip);
    }
  }

  // ----- split and join -----

  /** No piece of a split starts before the first character of the delimiter occurs. */
  lemma {:induction false} SplitPrefix(p: string, t: string, d: string)
    requires |d| > 0 && d[0] !in p
    ensures var st := Split(t, d);
      Split(p + t, d) == [p + st[0]] + st[1..]
    decreases |p|
  {
    var st := Split(t, d);
    if |p| == 0 {
      assert p + t == t && p + st[0] == st[0];
      assert [st[0]] + st[1..] == st;
    } else {
      var s := p + t;
      assert s[1..] == p[1..] + t;
      SplitPrefix(p[1..], t, d);
      if |s| < |d| {
        assert Split(s[1..], d) == [s[1..]];
        assert st[1..] == [] && p[1..] + st[0] == p[1..] + t;
        assert st[0] == t;
      } else {
        assert s[..|d|][0] == p[0] != d[0];
        assert [s[0]] + (p[1..] + st[0]) == p + st[0];
      }
    }
  }

  /** A string free of the delimiter's first character splits into itself. */
  lemma SplitWhole(s: string, d: string)
    requires |d| > 0 && d[0] !in s
    ensures Split(s, d) == [s]
  {
    SplitPrefix(s, "", d);
    assert s + "" == s;
  }

  /** A string that ends with a one-character delimiter splits into at least two pieces, the last one empty. */
  lemma {:induction false} SplitTrailing(s: string, c: char)
    requires |s| > 0 && s[|s| - 1] == c
    ensures var r := Split(s, [c]); |r| >= 2 && r[|r| - 1] == ""
    decreases |s|
  {
    var d := [c];
    if |s| == 1 {
      assert s[..1] == d && s[1..] == "";
    } else if s[..1] == d {
      SplitTrailing(s[1..], c);
    } else {
      SplitTrailing(s[1..], c);
      var rest := Split(s[1..], d);
      assert Split(s, d) == [[s[0]] + rest[0]] + rest[1..];
    }
  }

  /** A string that starts with the delimiter splits into an empty piece first. */
  lemma SplitLeading(t: string, d: string)
    requires |d| > 0
    ensures Split(d + t, d) == [""] + Split(t, d)
  {
    assert (d + t)[..|d|] == d;
    assert (d + t)[|d|..] == t;
  }

  /** Splitting undoes joining when no part holds the delimiter's first character. */
  lemma {:induction false} SplitJoin(parts: seq<string>, d: string)
    requires |d| > 0 && |parts| >= 1
    requires forall i :: 0 <= i < |parts| ==> d[0] !in parts[i]
    ensures Split(Join(parts, d), d) == parts
    decreases |parts|
  {
    if |parts| == 1 {
      SplitWhole(parts[0], d);
    } else {
      var rest := Join(parts[1..], d);
      assert Join(parts, d) == parts[0] + (d + rest);
      SplitPrefix(parts[0], d + rest, d);
      SplitLeading(rest, d);
      SplitJoin(parts[1..], d);
      var sd := Split(d + rest, d);
      assert sd == [""] + parts[1..];
      assert sd[0] == "" && sd[1..] == parts[1..];
      assert parts[0] + sd[0] == parts[0];
      assert [parts[0]] + parts[1..] == parts;
    }
  }

  /** A character absent from every part and from the separator is absent from the join. */
  lemma {:induction false} JoinAvoids(parts: seq<string>, sep: string, c: char)
    requires c !in sep
    requires forall i :: 0 <= i < |parts| ==> c !in parts[i]
    ensures c !in Join(parts, sep)
    decreases |parts|
  {
    if |parts| > 1 {
      JoinAvoids(parts[1..], sep, c);
    }
  }

  /** The join starts with the first part. */
  lemma {:induction false} JoinHead(parts: seq<string>, sep: string)
    requires |parts| >= 1
    ensures var j := Join(parts, sep); |parts[0]| <= |j| && j[..|parts[0]|] == parts[0]
  {
  }

  /** The join ends with the last part. */
  lemma {:induction false} JoinTail(parts: seq<string>, sep: string)
    requires |parts| >= 1
    ensures var j := Join(parts, sep); var l := parts[|parts| - 1];
      |l| <= |j| && j[|j| - |l|..] == l
    decreases |parts|
  {
    if |parts| > 1 {
      JoinTail(parts[1..], sep);
    }
  }

  /** The join's last character is the last part's last character. */
  lemma JoinLastChar(parts: seq<string>, sep: string)
    requires |parts| >= 1 && |parts[|parts| - 1]| > 0
    ensures var j := Join(parts, sep); var l := parts[|parts| - 1];
      |j| > 0 && j[|j| - 1] == l[|l| - 1]
  {
    JoinTail(parts, sep);
    var j := Join(parts, sep);
    var l := parts[|parts| - 1];
    assert j[|j| - |l|..][|l| - 1] == j[|j| - 1];
  }

  /**
   * The number of pieces is one more than the number of occurrences of the
   * delimiter, for a delimiter whose first character does not recur in it
   * (such a delimiter cannot overlap itself).
   */
  lemma {:induction false} SplitCount(s: string, d: string)
    requires |d| > 0 && d[0] !in d[1..]
    ensures |Split(s, d)| == 1 + Count(s, d)
    decreases |s|
  {
    if |s| >= |d| {
      if s[..|d|] == d {
        SkipDelimiter(s, d, 1);
        SplitCount(s[|d|..], d);
      } else {
        SplitCount(s[1..], d);
      }
    }
  }

  /** Inside an occurrence of `d` no further occurrence can start. */
  lemma {:induction false} SkipDelimiter(s: string, d: string, k: nat)
    requires |d| > 0 && d[0] !in d[1..]
    requires |s| >= |d| && s[..|d|] == d && 1 <= k <= |d|
    ensures Count(s[k..], d) == Count(s[|d|..], d)
    decreases |d| - k
  {
    if k < |d| {
      var u := s[k..];
      assert u[0] == d[k] && d[k] in d[1..];
      if |u| >= |d| {
        assert u[..|d|][0] != d[0];
      }
      assert u[1..] == s[k + 1..];
      SkipDelimiter(s, d, k + 1);
    }
  }

  // ----- trimming -----

  /** A stripped character in front does not change the trimmed text. */
  lemma TrimDropsLeading(c: char, s: string, strip: char -> bool)
    requires strip(c)
    ensures Trim([c] + s, strip) == Trim(s, strip)
  {
    assert ([c] + s)[1..] == s;
  }

  /** Appending to a string keeps the trimmed front, unless everything was stripped. */
  lemma {:induction false} TrimStartAppend(s: string, c: char, strip: char -> bool)
    ensures TrimStart(s + [c], strip) ==
      if TrimStart(s, strip) == [] then TrimStart([c], strip) else TrimStart(s, strip) + [c]
    decreases |s|
  {
    if |s| > 0 {
      assert (s + [c])[0] == s[0] && (s + [c])[1..] == s[1..] + [c];
      if strip(s[0]) {
        TrimStartAppend(s[1..], c, strip);
      }
    } else {
      assert s + [c] == [c];
    }
  }

  /** A stripped character at the end does not change the trimmed text. */
  lemma TrimDropsTrailing(s: string, c: char, strip: char -> bool)
    requires strip(c)
    ensures Trim(s + [c], strip) == Trim(s, strip)
  {
    TrimStartAppend(s, c, strip);
    var t := TrimStart(s, strip);
    if t != [] {
      assert (t + [c])[..|t + [c]| - 1] == t;
    } else {
      assert [c][1..] == [];
    }
  }

  /** Wrapping a text in stripped characters and trimming gives the text back when its ends are not stripped. */
  lemma TrimWrapped(pre: string, body: string, post: string, strip: char -> bool)
    requires forall i :: 0 <= i < |pre| ==> strip(pre[i])
    requires forall i :: 0 <= i < |post| ==> strip(post[i])
    requires |body| > 0 && !strip(body[0]) && !strip(body[|body| - 1])
    ensures Trim(pre + body + post, strip) == body
  {
    TrimStartPrefix(pre, body + post, strip);
    assert pre + body + post == pre + (body + post);
    TrimEndSuffix(body, post, strip);
  }

  lemma {:induction false} TrimStartPrefix(pre: string, rest: string, strip: char -> bool)
    requires forall i :: 0 <= i < |pre| ==> strip(pre[i])
    requires |rest| > 0 && !strip(rest[0])
    ensures TrimStart(pre + rest, strip) == rest
    decreases |pre|
  {
    if |pre| == 0 {
      assert pre + rest == rest;
    } else {
      assert (pre + rest)[1..] == pre[1..] + rest;
      TrimStartPrefix(pre[1..], rest, strip);
    }
  }

  lemma {:induction false} TrimEndSuffix(body: string, post: string, strip: char -> bool)
    requires forall i :: 0 <= i < |post| ==> strip(post[i])
    requires |body| > 0 && !strip(body[|body| - 1])
    ensures TrimEnd(body + post, strip) == body
    decreases |post|
  {
    if |post| == 0 {
      assert body + post == body;
    } else {
      var s := body + post;
      assert s[|s| - 1] == post[|post| - 1];
      assert s[..|s| - 1] == body + post[..|post| - 1];
      TrimEndSuffix(body, post[..|post| - 1], strip);
    }
  }

  /** Trimming the end of `p + q` keeps all of `p` when its last character is not stripped. */
  lemma {:induction false} TrimEndKeepsPrefix(p: string, q: string, strip: char -> bool)
    requires |p| > 0 && !strip(p[|p| - 1])
    ensures TrimEnd(p + q, strip) == p + TrimEnd(q, strip)
    decreases |q|
  {
    if |q| == 0 {
      assert p + q == p;
    } else {
      var s := p + q;
      assert s[|s| - 1] == q[|q| - 1];
      assert s[..|s| - 1] == p + q[..|q| - 1];
      TrimEndKeepsPrefix(p, q[..|q| - 1], strip);
    }
  }
}
