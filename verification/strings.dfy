/** `Array.prototype.join` and its inverse for a one-character separator,
    `String.prototype.split`. */
module Strings {

  /** Sum of the lengths of `parts`. */
  function TotalLength(parts: seq<string>): nat
  {
    if |parts| == 0 then 0 else |parts[0]| + TotalLength(parts[1..])
  }

  /** `parts.join(sep)`: no separator before the first part or after the last. */
  function Join(parts: seq<string>, sep: string): (s: string)
    ensures |parts| == 0 ==> s == ""
    ensures |parts| == 1 ==> s == parts[0]
    ensures |parts| > 0 ==> |s| == TotalLength(parts) + (|parts| - 1) * |sep|
  {
    if |parts| == 0 then ""
    else if |parts| == 1 then parts[0]
    else parts[0] + sep + Join(parts[1..], sep)
  }

  /** Joining two non-empty lists puts exactly one separator between them. */
  lemma {:induction false} JoinAppend(a: seq<string>, b: seq<string>, sep: string)
    requires |a| > 0 && |b| > 0
    ensures Join(a + b, sep) == Join(a, sep) + sep + Join(b, sep)
  {
    if |a| == 1 {
      assert (a + b)[1..] == b;
    } else {
      assert (a + b)[1..] == a[1..] + b;
      JoinAppend(a[1..], b, sep);
    }
  }

  /** Replacing two adjacent parts by their join leaves the result unchanged. */
  lemma {:induction false} JoinFuse(a: seq<string>, u: string, v: string, b: seq<string>, sep: string)
    ensures Join(a + [u, v] + b, sep) == Join(a + [u + sep + v] + b, sep)
  {
    if |a| == 0 {
      assert a + [u, v] + b == [u] + ([v] + b);
      assert a + [u + sep + v] + b == [u + sep + v] + b;
      if |b| > 0 {
        JoinAppend([u], [v] + b, sep);
        JoinAppend([v], b, sep);
        JoinAppend([u + sep + v], b, sep);
      }
    } else {
      assert (a + [u, v] + b)[1..] == a[1..] + [u, v] + b;
      assert (a + [u + sep + v] + b)[1..] == a[1..] + [u + sep + v] + b;
      JoinFuse(a[1..], u, v, b, sep);
    }
  }

  /** `s.split(c)` for a single character `c`: always at least one piece, and
      no piece contains `c`. */
  function Split(s: string, c: char): (r: seq<string>)
    ensures |r| >= 1
    ensures forall i :: 0 <= i < |r| ==> c !in r[i]
    decreases |s|
  {
    if |s| == 0 then [""]
    else
      var rest := Split(s[1..], c);
      if s[0] == c then [""] + rest
      else [[s[0]] + rest[0]] + rest[1..]
  }

  /** Splitting text that starts with a separator-free prefix `x`. */
  lemma {:induction false} SplitPrefix(x: string, y: string, c: char)
    requires c !in x
    ensures Split(x + y, c) == [x + Split(y, c)[0]] + Split(y, c)[1..]
    decreases |x|
  {
    if |x| > 0 {
      assert (x + y)[0] == x[0];
      assert (x + y)[1..] == x[1..] + y;
      SplitPrefix(x[1..], y, c);
      assert [x[0]] + (x[1..] + Split(y, c)[0]) == x + Split(y, c)[0];
    } else {
      var r := Split(y, c);
      assert x + y == y;
      assert x + r[0] == r[0];
      assert [r[0]] + r[1..] == r;
    }
  }

  /** Split undoes Join when no part contains the separator. */
  lemma {:induction false} SplitJoin(parts: seq<string>, c: char)
    requires |parts| > 0
    requires forall i :: 0 <= i < |parts| ==> c !in parts[i]
    ensures Split(Join(parts, [c]), c) == parts
  {
    if |parts| == 1 {
      SplitPrefix(parts[0], "", c);
      assert parts[0] + "" == parts[0];
    } else {
      var rest := Join(parts[1..], [c]);
      SplitJoin(parts[1..], c);
      assert Join(parts, [c]) == parts[0] + ([c] + rest);
      SplitPrefix(parts[0], [c] + rest, c);
      assert ([c] + rest)[1..] == rest;
      assert Split([c] + rest, c) == [""] + parts[1..];
      assert parts[0] + "" == parts[0];
    }
  }

  /** Join undoes Split: the pieces with the separator put back are the text. */
  lemma {:induction false} JoinSplit(s: string, c: char)
    ensures Join(Split(s, c), [c]) == s
    decreases |s|
  {
    if |s| > 0 {
      var rest := Split(s[1..], c);
      JoinSplit(s[1..], c);
      if s[0] == c {
        assert Join([""] + rest, [c]) == "" + [c] + Join(rest, [c]);
      } else if |rest| == 1 {
        assert Join([[s[0]] + rest[0]] + rest[1..], [c]) == [s[0]] + rest[0];
      } else {
        var r := [[s[0]] + rest[0]] + rest[1..];
        assert r[1..] == rest[1..];
        assert Join(r, [c]) == ([s[0]] + rest[0]) + [c] + Join(rest[1..], [c]);
        assert Join(rest, [c]) == rest[0] + [c] + Join(rest[1..], [c]);
      }
    }
  }
}
