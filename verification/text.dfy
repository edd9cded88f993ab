/**
 * The few `str` operations the splitter uses: `endswith`, the tail after the
 * last occurrence of a character (`rfind` and `split(c)[-1]`), and
 * `split(c)` with its inverse `c.join`.
 */
module Text {

  /** `s.endswith(suffix)`. */
  predicate EndsWith(s: string, suffix: string) {
    |suffix| <= |s| && s[|s| - |suffix|..] == suffix
  }

  /** `s.rfind(c)`: the index of the last `c` in `s`, or -1 when there is none. */
  function LastIndex(s: string, c: char): (i: int)
    ensures -1 <= i < |s|
    ensures 0 <= i ==> s[i] == c
    ensures forall k :: i < k < |s| ==> s[k] != c
  {
    if |s| == 0 then -1
    else if s[|s| - 1] == c then |s| - 1
    else LastIndex(s[..|s| - 1], c)
  }

  /** The text after the last `c`, or all of `s` when `c` does not occur: `s.split(c)[-1]`. */
  function AfterLast(s: string, c: char): (r: string)
    ensures EndsWith(s, r)
    ensures c !in r
    ensures |r| < |s| ==> s[|s| - |r| - 1] == c
  {
    s[LastIndex(s, c) + 1..]
  }

  /** When s is c-free and follows a c (or starts the string), s is exactly what follows the last c. */
  lemma {:induction false} AfterLastOf(q: string, s: string, c: char)
    requires c !in s
    requires |q| == 0 || q[|q| - 1] == c
    ensures AfterLast(q + s, c) == s
  {
    var p := q + s;
    assert p[|p| - |s|..] == s;
  }

  /** `sep.join(fields)`. */
  function JoinWith(fields: seq<string>, sep: char): string
  {
    if |fields| == 0 then ""
    else if |fields| == 1 then fields[0]
    else fields[0] + [sep] + JoinWith(fields[1..], sep)
  }

  /**
   * `s.split(sep)`: the maximal `sep`-free fields between the separators,
   * always at least one (the empty string splits into one empty field).
   */
  function Split(s: string, sep: char): (fields: seq<string>)
    ensures |fields| >= 1
    ensures forall i :: 0 <= i < |fields| ==> sep !in fields[i]
    ensures JoinWith(fields, sep) == s
    ensures |fields| == 1 <==> sep !in s
    decreases |s|
  {
    if |s| == 0 then
      [""]
    else
      var rest := Split(s[1..], sep);
      if s[0] == sep then
        assert ([""] + rest)[1..] == rest;
        [""] + rest
      else
        var fields := [[s[0]] + rest[0]] + rest[1..];
        assert fields[1..] == rest[1..];
        assert s == [s[0]] + s[1..];
        fields
  }

  /** A leading separator closes an empty first field. */
  lemma {:induction false} SplitAtSeparator(s: string, sep: char)
    requires |s| > 0 && s[0] == sep
    ensures Split(s, sep) == [""] + Split(s[1..], sep)
  {
  }

  /** A leading non-separator character starts the first field. */
  lemma {:induction false} SplitAtOther(s: string, sep: char)
    requires |s| > 0 && s[0] != sep
    ensures Split(s, sep) == [[s[0]] + Split(s[1..], sep)[0]] + Split(s[1..], sep)[1..]
  {
  }

  /** Splitting a field followed by a separator peels off exactly that field. */
  lemma {:induction false} SplitCons(a: string, sep: char, t: string)
    requires sep !in a
    ensures Split(a + [sep] + t, sep) == [a] + Split(t, sep)
    decreases |a|
  {
    var s := a + [sep] + t;
    if |a| == 0 {
      assert s == [sep] + t && s[1..] == t;
      SplitAtSeparator(s, sep);
    } else {
      assert s[0] == a[0] && s[0] != sep;
      assert s[1..] == a[1..] + [sep] + t;
      SplitCons(a[1..], sep, t);
      SplitAtOther(s, sep);
      assert [a[0]] + a[1..] == a;
    }
  }

  /** A `sep`-free string is a single field. */
  lemma {:induction false} SplitSingle(a: string, sep: char)
    requires sep !in a
    ensures Split(a, sep) == [a]
  {
  }

  /** `split` inverts `join` on separator-free fields (the converse is `Split`'s own contract). */
  lemma {:induction false} SplitJoin(fields: seq<string>, sep: char)
    requires |fields| >= 1
    requires forall i :: 0 <= i < |fields| ==> sep !in fields[i]
    ensures Split(JoinWith(fields, sep), sep) == fields
    decreases |fields|
  {
    if |fields| == 1 {
      SplitSingle(fields[0], sep);
    } else {
      SplitJoin(fields[1..], sep);
      SplitCons(fields[0], sep, JoinWith(fields[1..], sep));
      assert [fields[0]] + fields[1..] == fields;
    }
  }

  /** Two strings cut at their first separator agree on both sides of the cut. */
  lemma {:induction false} CutAtSeparator(a: string, b: string, c: string, d: string, sep: char)
    requires sep !in a && sep !in c
    requires a + [sep] + b == c + [sep] + d
    ensures a == c && b == d
  {
    SplitCons(a, sep, b);
    SplitCons(c, sep, d);
    assert a == ([a] + Split(b, sep))[0];
    assert b == (a + [sep] + b)[|a| + 1..];
    assert d == (c + [sep] + d)[|c| + 1..];
  }
}
