/**
 * The few JavaScript string operations the File Mixer relies on, as total
 * functions over `string` (a `seq<char>`):
 *   - `parts.join(sep)`       is JoinWith
 *   - `s.split(c)`            (a one-character separator) is Split
 *   - `s.split(c).pop()`      is LastSegment
 *   - `s.toLowerCase()`       is Lower (ASCII letters only)
 * Split and JoinWith are proved to be inverse to each other.
 */
module JsStrings {

  /** `parts.join(sep)`: the parts with `sep` between neighbours; `[].join(sep)` is "". */
  function JoinWith(parts: seq<string>, sep: string): string
    decreases |parts|
  {
    if |parts| == 0 then ""
    else if |parts| == 1 then parts[0]
    else JoinWith(parts[..|parts| - 1], sep) + sep + parts[|parts| - 1]
  }

  /** Joining is the same seen from the front: the first part, a separator, the rest joined. */
  lemma {:induction false} JoinWithCons(x: string, parts: seq<string>, sep: string)
    requires |parts| >= 1
    ensures JoinWith([x] + parts, sep) == x + sep + JoinWith(parts, sep)
    decreases |parts|
  {
    var all := [x] + parts;
    if |parts| == 1 {
      assert all[..1] == [x];
    } else {
      assert all[..|all| - 1] == [x] + parts[..|parts| - 1];
      JoinWithCons(x, parts[..|parts| - 1], sep);
    }
  }

  /** Joining two non-empty lists puts one separator between their joins. */
  lemma {:induction false} JoinWithAppend(a: seq<string>, b: seq<string>, sep: string)
    requires |a| >= 1 && |b| >= 1
    ensures JoinWith(a + b, sep) == JoinWith(a, sep) + sep + JoinWith(b, sep)
    decreases |b|
  {
    var ab := a + b;
    if |b| == 1 {
      assert ab[..|ab| - 1] == a;
    } else {
      assert ab[..|ab| - 1] == a + b[..|b| - 1];
      JoinWithAppend(a, b[..|b| - 1], sep);
    }
  }

  /**
   * The layout of a join around part `k`: the earlier parts joined and a
   * separator (none when `k` is first), the part itself, then a separator
   * and the later parts joined (none when `k` is last).
   */
  lemma JoinWithAround(parts: seq<string>, sep: string, k: nat)
    requires k < |parts|
    ensures JoinWith(parts, sep) ==
      (if k == 0 then "" else JoinWith(parts[..k], sep) + sep) +
      parts[k] +
      (if k == |parts| - 1 then "" else sep + JoinWith(parts[k + 1..], sep))
  {
    var upTo := parts[..k + 1];
    assert upTo == parts[..k] + [parts[k]];
    if k > 0 {
      JoinWithAppend(parts[..k], [parts[k]], sep);
    }
    if k < |parts| - 1 {
      assert parts == upTo + parts[k + 1..];
      JoinWithAppend(upTo, parts[k + 1..], sep);
    } else {
      assert parts == upTo;
    }
  }

  /**
   * `s.split(c)` for a one-character separator: the maximal runs of
   * characters other than `c`, in order. There is always at least one part
   * ("".split(c) is [""]), and a separator at either end yields an empty part.
   */
  function Split(s: string, c: char): (parts: seq<string>)
    ensures |parts| >= 1
    ensures forall i :: 0 <= i < |parts| ==> c !in parts[i]
    decreases |s|
  {
    if |s| == 0 then [""]
    else
      var rest := Split(s[1..], c);
      if s[0] == c then [""] + rest
      else [[s[0]] + rest[0]] + rest[1..]
  }

  /** Joining the parts of a split with the separator gives back the string. */
  lemma {:induction false} JoinSplit(s: string, c: char)
    ensures JoinWith(Split(s, c), [c]) == s
    decreases |s|
  {
    if |s| > 0 {
      var rest := Split(s[1..], c);
      JoinSplit(s[1..], c);
      if s[0] == c {
        JoinWithCons("", rest, [c]);
      } else if |rest| == 1 {
        assert Split(s, c) == [[s[0]] + rest[0]];
      } else {
        var head := [s[0]] + rest[0];
        assert rest == [rest[0]] + rest[1..];
        JoinWithCons(rest[0], rest[1..], [c]);
        JoinWithCons(head, rest[1..], [c]);
      }
    }
  }

  /** A string without the separator splits into itself alone. */
  lemma {:induction false} SplitWithoutSeparator(x: string, c: char)
    requires c !in x
    ensures Split(x, c) == [x]
    decreases |x|
  {
    if |x| > 0 {
      assert c !in x[1..];
      SplitWithoutSeparator(x[1..], c);
      assert [x[0]] + x[1..] == x;
    }
  }

  /** A separator-free prefix followed by the separator splits off as the first part. */
  lemma {:induction false} SplitAfterPart(x: string, c: char, t: string)
    requires c !in x
    ensures Split(x + [c] + t, c) == [x] + Split(t, c)
    decreases |x|
  {
    var s := x + [c] + t;
    if |x| == 0 {
      assert s[1..] == t;
    } else {
      assert s[1..] == x[1..] + [c] + t;
      assert c !in x[1..];
      SplitAfterPart(x[1..], c, t);
      assert [x[0]] + x[1..] == x;
    }
  }

  /** Splitting the join of separator-free parts gives back the parts. */
  lemma {:induction false} SplitJoin(parts: seq<string>, c: char)
    requires |parts| >= 1
    requires forall i :: 0 <= i < |parts| ==> c !in parts[i]
    ensures Split(JoinWith(parts, [c]), c) == parts
    decreases |parts|
  {
    if |parts| == 1 {
      SplitWithoutSeparator(parts[0], c);
    } else {
      assert parts == [parts[0]] + parts[1..];
      JoinWithCons(parts[0], parts[1..], [c]);
      SplitAfterPart(parts[0], c, JoinWith(parts[1..], [c]));
      SplitJoin(parts[1..], c);
    }
  }

  /**
   * The last part of `s.split(c)`: the text after the last `c`, or all of `s`
   * when it holds no `c`.
   */
  function LastSegment(s: string, c: char): (r: string)
    ensures c !in r
    ensures |r| <= |s| && r == s[|s| - |r|..]
    ensures |r| < |s| ==> s[|s| - |r| - 1] == c
    ensures c !in s ==> r == s
  {
    var parts := Split(s, c);
    JoinSplit(s, c);
    if |parts| >= 2 then
      JoinWithAppend(parts[..|parts| - 1], [parts[|parts| - 1]], [c]);
      assert parts[..|parts| - 1] + [parts[|parts| - 1]] == parts;
      parts[|parts| - 1]
    else
      parts[0]
  }

  /** The last part is whatever follows the last separator. */
  lemma LastSegmentAfter(x: string, c: char, y: string)
    requires c !in y
    ensures LastSegment(x + [c] + y, c) == y
  {
    var s := x + [c] + y;
    var r := LastSegment(s, c);
    assert s[|s| - |y| - 1] == c && s[|s| - |y|..] == y;
    assert forall i :: 0 <= i < |r| ==> r[i] == s[|s| - |r| + i];
  }

  /** `toLowerCase` on one character, for the ASCII letters. */
  function LowerChar(ch: char): char
  {
    if 'A' <= ch <= 'Z' then (ch as int - 'A' as int + 'a' as int) as char else ch
  }

  /** `s.toLowerCase()`, with ASCII case folding. */
  function Lower(s: string): (r: string)
    ensures |r| == |s|
    ensures forall i :: 0 <= i < |s| ==> r[i] == LowerChar(s[i])
  {
    seq(|s|, i requires 0 <= i < |s| => LowerChar(s[i]))
  }
}
