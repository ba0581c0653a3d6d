/**
  The Python `str` operations the modelled functions rely on, stated over
  `seq<char>`: `sep.join(parts)`, `s.split(c)`, `s.strip()`, the ordering of
  `str` values and `sorted()` over a list of them.
 */
module Strings {

  /** `sep.join(parts)` */
  function Join(parts: seq<string>, sep: string): string
  {
    if |parts| == 0 then ""
    else if |parts| == 1 then parts[0]
    else parts[0] + sep + Join(parts[1..], sep)
  }

  /** Joining one more part at the end adds the separator and the part. */
  lemma {:induction false} JoinSnoc(parts: seq<string>, p: string, sep: string)
    requires parts != []
    ensures Join(parts + [p], sep) == Join(parts, sep) + sep + p
  {
    if |parts| == 1 {
      assert parts + [p] == [parts[0], p];
    } else {
      assert (parts + [p])[1..] == parts[1..] + [p];
      JoinSnoc(parts[1..], p, sep);
    }
  }

  /** `s.split(c)` for a one-character separator: the runs between the occurrences of `c`. */
  function Split(s: string, c: char): (parts: seq<string>)
    ensures |parts| >= 1
    ensures forall i :: 0 <= i < |parts| ==> c !in parts[i]
  {
    if s == [] then [""]
    else
      var rest := Split(s[1..], c);
      if s[0] == c then [""] + rest
      else [[s[0]] + rest[0]] + rest[1..]
  }

  /** Joining the fields of a split with the separator gives back the string. */
  lemma {:induction false} JoinSplit(s: string, c: char)
    ensures Join(Split(s, c), [c]) == s
  {
    if s != [] {
      JoinSplit(s[1..], c);
      var rest := Split(s[1..], c);
      if s[0] == c {
        assert ([""] + rest)[1..] == rest;
      } else if |rest| > 1 {
        var parts := [[s[0]] + rest[0]] + rest[1..];
        assert parts[1..] == rest[1..];
        assert Join(rest, [c]) == rest[0] + [c] + Join(rest[1..], [c]);
      }
    }
  }

  /** A prefix free of the separator stays glued to the first field. */
  lemma {:induction false} SplitPrefix(p: string, t: string, c: char)
    requires c !in p
    ensures Split(p + t, c) == [p + Split(t, c)[0]] + Split(t, c)[1..]
  {
    if p != [] {
      assert (p + t)[1..] == p[1..] + t;
      SplitPrefix(p[1..], t, c);
      assert [p[0]] + (p[1..] + Split(t, c)[0]) == p + Split(t, c)[0];
    } else {
      assert p + t == t;
      var parts := Split(t, c);
      assert parts == [parts[0]] + parts[1..];
      assert p + parts[0] == parts[0];
    }
  }

  /** Splitting a join of separator-free fields gives back the fields. */
  lemma {:induction false} SplitJoin(parts: seq<string>, c: char)
    requires |parts| >= 1
    requires forall i :: 0 <= i < |parts| ==> c !in parts[i]
    ensures Split(Join(parts, [c]), c) == parts
  {
    if |parts| == 1 {
      SplitPrefix(parts[0], "", c);
      assert parts[0] + "" == parts[0];
    } else {
      var t := Join(parts[1..], [c]);
      SplitJoin(parts[1..], c);
      SplitPrefix(parts[0], [c] + t, c);
      assert parts[0] + [c] + t == parts[0] + ([c] + t);
      assert ([c] + t)[1..] == t;
      assert Split([c] + t, c) == [""] + parts[1..];
      assert parts[0] + "" == parts[0];
    }
  }

  /** The number of occurrences of `c` in `s`. */
  function CountChar(s: string, c: char): nat
  {
    if s == [] then 0 else (if s[0] == c then 1 else 0) + CountChar(s[1..], c)
  }

  /** A split has one field more than the string has separators. */
  lemma {:induction false} SplitCount(s: string, c: char)
    ensures |Split(s, c)| == CountChar(s, c) + 1
  {
    if s != [] {
      SplitCount(s[1..], c);
    }
  }

  /**
    The first field of a split is the longest separator-free prefix: everything
    before the first occurrence of `c`, or the whole string when there is none.
   */
  lemma {:induction false} SplitFirst(s: string, c: char)
    ensures var f := Split(s, c)[0];
      |f| <= |s| && s[..|f|] == f && (|f| < |s| ==> s[|f|] == c)
  {
    if s != [] && s[0] != c {
      SplitFirst(s[1..], c);
    }
  }

  /**
    The last field of a split is a separator-free suffix, preceded by `c`
    unless it is the whole string.
   */
  lemma {:induction false} SplitLast(s: string, c: char)
    ensures var parts := Split(s, c); var l := parts[|parts| - 1];
      |l| <= |s| && s[|s| - |l|..] == l &&
      (|l| < |s| ==> s[|s| - |l| - 1] == c) &&
      (|parts| == 1 <==> |l| == |s|)
  {
    if s != [] {
      SplitLast(s[1..], c);
      var rest := Split(s[1..], c);
      var l := rest[|rest| - 1];
      assert s[1..][|s[1..]| - |l|..] == l;
      assert s[|s| - |l|..] == s[1..][|s[1..]| - |l|..];
      if s[0] != c && |rest| == 1 {
        assert [s[0]] + s[1..] == s;
      }
    }
  }

  /** The characters Python's `str.isspace()` (and so `str.strip()`) treats as whitespace. */
  predicate IsSpace(ch: char)
  {
    var n := ch as int;
    (9 <= n <= 13) || (28 <= n <= 32) || n == 0x85 || n == 0xA0 || n == 0x1680 ||
    (0x2000 <= n <= 0x200A) || n == 0x2028 || n == 0x2029 || n == 0x202F ||
    n == 0x205F || n == 0x3000
  }

  /** `s.lstrip()` */
  function TrimStart(s: string): (r: string)
    ensures |r| <= |s| && r == s[|s| - |r|..]
    ensures forall i :: 0 <= i < |s| - |r| ==> IsSpace(s[i])
    ensures r != [] ==> !IsSpace(r[0])
  {
    if s != [] && IsSpace(s[0]) then TrimStart(s[1..]) else s
  }

  /** `s.rstrip()` */
  function TrimEnd(s: string): (r: string)
    ensures |r| <= |s| && r == s[..|r|]
    ensures forall i :: |r| <= i < |s| ==> IsSpace(s[i])
    ensures r != [] ==> !IsSpace(r[|r| - 1])
  {
    if s != [] && IsSpace(s[|s| - 1]) then TrimEnd(s[..|s| - 1]) else s
  }

  /** `s.strip()` */
  function Strip(s: string): string
  {
    TrimEnd(TrimStart(s))
  }

  /**
    `s.strip()` is the slice of `s` from its first to its last non-whitespace
    character: whitespace before it, whitespace after it.
   */
  lemma StripSlice(s: string)
    ensures var r := Strip(s);
      exists lo :: (0 <= lo <= |s| && r <= s[lo..] &&
                    (forall i :: 0 <= i < lo ==> IsSpace(s[i])) &&
                    (forall i :: lo + |r| <= i < |s| ==> IsSpace(s[i])))
  {
    var t := TrimStart(s);
    var r := TrimEnd(t);
    var lo := |s| - |t|;
    assert t == s[lo..];
    assert r <= s[lo..];
    forall i | lo + |r| <= i < |s| ensures IsSpace(s[i]) {
      assert s[i] == t[i - lo];
    }
  }

  /** `s.strip()` starts and ends with non-whitespace. */
  lemma StripEnds(s: string)
    ensures var r := Strip(s); r != [] ==> !IsSpace(r[0]) && !IsSpace(r[|r| - 1])
  {
    var t := TrimStart(s);
    var r := TrimEnd(t);
    if r != [] {
      assert r[0] == t[0];
    }
  }

  /** `s.strip()` is empty exactly when `s` is all whitespace. */
  lemma StripEmptyIff(s: string)
    ensures Strip(s) == [] <==> forall i :: 0 <= i < |s| ==> IsSpace(s[i])
  {
    var t := TrimStart(s);
    var lo := |s| - |t|;
    if t != [] && TrimEnd(t) != [] {
      assert !IsSpace(s[lo]);
    }
  }

  /** Python's `a <= b` on `str`: lexicographic by code point, a proper prefix first. */
  predicate LexLe(a: string, b: string)
  {
    if a == [] then true
    else if b == [] then false
    else if a[0] != b[0] then a[0] < b[0]
    else LexLe(a[1..], b[1..])
  }

  lemma {:induction false} LexLeTotal(a: string, b: string)
    ensures LexLe(a, b) || LexLe(b, a)
  {
    if a != [] && b != [] && a[0] == b[0] {
      LexLeTotal(a[1..], b[1..]);
    }
  }

  lemma {:induction false} LexLeAntisymmetric(a: string, b: string)
    requires LexLe(a, b) && LexLe(b, a)
    ensures a == b
  {
    if a != [] && b != [] {
      LexLeAntisymmetric(a[1..], b[1..]);
      assert a == [a[0]] + a[1..] && b == [b[0]] + b[1..];
    }
  }

  lemma {:induction false} LexLeTransitive(a: string, b: string, c: string)
    requires LexLe(a, b) && LexLe(b, c)
    ensures LexLe(a, c)
  {
    if a != [] && b != [] && c != [] && a[0] == b[0] && b[0] == c[0] {
      LexLeTransitive(a[1..], b[1..], c[1..]);
    }
  }

  /** Every element of `s` is at most the ones after it. */
  predicate Sorted(s: seq<string>)
  {
    forall i, j :: 0 <= i < j < |s| ==> LexLe(s[i], s[j])
  }

  /** Inserting `x` into a list before the first element not below it. */
  function Insert(x: string, s: seq<string>): (r: seq<string>)
    ensures multiset(r) == multiset(s) + multiset{x}
  {
    if s == [] then [x]
    else if LexLe(x, s[0]) then [x] + s
    else
      assert s == [s[0]] + s[1..];
      [s[0]] + Insert(x, s[1..])
  }

  /** Inserting into a sorted list keeps it sorted. */
  lemma {:induction false} InsertSorted(x: string, s: seq<string>)
    requires Sorted(s)
    ensures Sorted(Insert(x, s))
  {
    if s == [] {
    } else if LexLe(x, s[0]) {
      forall j | 0 < j < |s| ensures LexLe(x, s[j]) {
        LexLeTransitive(x, s[0], s[j]);
      }
    } else {
      LexLeTotal(x, s[0]);
      InsertSorted(x, s[1..]);
      var tail := Insert(x, s[1..]);
      forall j | 0 <= j < |tail| ensures LexLe(s[0], tail[j]) {
        assert tail[j] in multiset(tail);
        assert tail[j] == x || tail[j] in multiset(s[1..]);
      }
    }
  }

  /** `sorted(s)` on a list of `str`: insertion sort, a permutation of `s`. */
  function SortStrings(s: seq<string>): (r: seq<string>)
    ensures multiset(r) == multiset(s)
  {
    if s == [] then []
    else
      assert s == [s[0]] + s[1..];
      Insert(s[0], SortStrings(s[1..]))
  }

  /** `sorted(s)` is in order. */
  lemma {:induction false} SortStringsSorted(s: seq<string>)
    ensures Sorted(SortStrings(s))
  {
    if s != [] {
      SortStringsSorted(s[1..]);
      InsertSorted(s[0], SortStrings(s[1..]));
    }
  }
}
