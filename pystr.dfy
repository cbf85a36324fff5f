/**
 * Python's `str.split(sep)` and `sep.join(parts)` for a one-character
 * separator. Splitting keeps empty pieces, so a string with n separators
 * always splits into n + 1 pieces.
 */
module PyStr {

  /** Number of occurrences of `c` in `s`. */
  function Count(s: string, c: char): nat {
    if s == [] then 0 else (if s[0] == c then 1 else 0) + Count(s[1..], c)
  }

  lemma {:induction false} CountConcat(a: string, b: string, c: char)
    ensures Count(a + b, c) == Count(a, c) + Count(b, c)
  {
    if a != [] {
      assert (a + b)[1..] == a[1..] + b;
      CountConcat(a[1..], b, c);
    } else {
      assert a + b == b;
    }
  }

  function Split(s: string, sep: char): (parts: seq<string>)
    ensures |parts| == Count(s, sep) + 1
    ensures forall i :: 0 <= i < |parts| ==> sep !in parts[i]
  {
    if s == [] then [""]
    else
      var rest := Split(s[1..], sep);
      if s[0] == sep then [""] + rest
      else [[s[0]] + rest[0]] + rest[1..]
  }

  /** Total number of occurrences of `c` in all the pieces. */
  function CountAll(parts: seq<string>, c: char): nat {
    if parts == [] then 0 else Count(parts[0], c) + CountAll(parts[1..], c)
  }

  /** `sep.join(parts)`: the separators it adds are one fewer than the pieces. */
  function Join(parts: seq<string>, sep: char): (r: string)
    ensures |parts| > 0 ==> Count(r, sep) == CountAll(parts, sep) + |parts| - 1
  {
    if |parts| == 0 then ""
    else if |parts| == 1 then parts[0]
    else
      var rest := Join(parts[1..], sep);
      CountConcat(parts[0] + [sep], rest, sep);
      CountConcat(parts[0], [sep], sep);
      parts[0] + [sep] + rest
  }

  /** Joining the pieces of a split with the same separator gives the string back. */
  lemma {:induction false} JoinSplit(s: string, sep: char)
    ensures Join(Split(s, sep), sep) == s
  {
    if s != [] {
      var rest := Split(s[1..], sep);
      JoinSplit(s[1..], sep);
      if s[0] == sep {
        assert ([""] + rest)[1..] == rest;
      } else {
        var parts := [[s[0]] + rest[0]] + rest[1..];
        assert parts[1..] == rest[1..];
      }
    }
  }

  lemma {:induction false} SplitAround(x: string, y: string, sep: char)
    requires sep !in x
    ensures Split(x + [sep] + y, sep) == [x] + Split(y, sep)
  {
    if x != [] {
      assert (x + [sep] + y)[1..] == x[1..] + [sep] + y;
      SplitAround(x[1..], y, sep);
      assert [x[0]] + x[1..] == x;
    }
  }

  lemma {:induction false} SplitNoSeparator(x: string, sep: char)
    requires sep !in x
    ensures Split(x, sep) == [x]
  {
    if x != [] {
      SplitNoSeparator(x[1..], sep);
      assert [x[0]] + x[1..] == x;
    }
  }

  /** Splitting a join gives the pieces back, provided no piece contains the separator. */
  lemma {:induction false} SplitJoin(parts: seq<string>, sep: char)
    requires |parts| >= 1
    requires forall i :: 0 <= i < |parts| ==> sep !in parts[i]
    ensures Split(Join(parts, sep), sep) == parts
  {
    if |parts| == 1 {
      SplitNoSeparator(parts[0], sep);
    } else {
      SplitJoin(parts[1..], sep);
      SplitAround(parts[0], Join(parts[1..], sep), sep);
      assert [parts[0]] + parts[1..] == parts;
    }
  }

  /** Joining two non-empty lists of pieces puts one separator between the two joins. */
  lemma {:induction false} JoinConcat(a: seq<string>, b: seq<string>, sep: char)
    requires |a| >= 1 && |b| >= 1
    ensures Join(a + b, sep) == Join(a, sep) + [sep] + Join(b, sep)
  {
    if |a| > 1 {
      assert (a + b)[1..] == a[1..] + b;
      JoinConcat(a[1..], b, sep);
    } else {
      assert (a + b)[1..] == b;
    }
  }

  /** The position just after the n-th occurrence of `c` in `s` (0 for n = 0). */
  function IndexAfterNth(s: string, c: char, n: nat): (k: nat)
    requires n <= Count(s, c)
    ensures k <= |s|
    ensures n > 0 ==> 0 < k && s[k - 1] == c
    ensures Count(s[..k], c) == n
  {
    if n == 0 then 0
    else if s[0] == c then
      var k := 1 + IndexAfterNth(s[1..], c, n - 1);
      assert s[..k] == [c] + s[1..][..k - 1];
      k
    else
      var k := 1 + IndexAfterNth(s[1..], c, n);
      assert s[..k] == [s[0]] + s[1..][..k - 1];
      k
  }

  lemma {:induction false} IndexAfterFirst(x: string, y: string, c: char, n: nat)
    requires c !in x && 1 <= n <= Count(y, c) + 1
    ensures Count(x + [c] + y, c) == Count(y, c) + 1
    ensures IndexAfterNth(x + [c] + y, c, n) == |x| + 1 + IndexAfterNth(y, c, n - 1)
  {
    var s := x + [c] + y;
    CountConcat(x + [c], y, c);
    CountConcat(x, [c], c);
    CountAbsent(x, c);
    if x == [] {
      assert s[0] == c && s[1..] == y;
    } else {
      IndexAfterFirst(x[1..], y, c, n);
      assert s[0] == x[0] != c;
      assert s[1..] == x[1..] + [c] + y;
    }
  }

  /**
   * Where the first n pieces end: the join of the first n pieces, followed by
   * the separator, is the text up to and including the n-th separator, and
   * the join of the remaining pieces is everything after it.
   */
  lemma {:induction false} SplitAtNth(parts: seq<string>, sep: char, n: nat)
    requires 1 <= n < |parts|
    requires forall i :: 0 <= i < |parts| ==> sep !in parts[i]
    ensures n <= Count(Join(parts, sep), sep)
    ensures IndexAfterNth(Join(parts, sep), sep, n) == |Join(parts[..n], sep)| + 1
  {
    SplitJoin(parts, sep);
    SplitJoin(parts[1..], sep);
    var rest := Join(parts[1..], sep);
    IndexAfterFirst(parts[0], rest, sep, n);
    if n > 1 {
      SplitAtNth(parts[1..], sep, n - 1);
      assert parts[1..][..n - 1] == parts[..n][1..];
    }
  }

  /** The n-th separator splits the text into the join of the first n pieces and the join of the rest. */
  lemma SplitPrefixSuffix(s: string, sep: char, n: nat)
    requires 1 <= n < |Split(s, sep)|
    ensures n <= Count(s, sep)
    ensures var k := IndexAfterNth(s, sep, n);
      var parts := Split(s, sep);
      s[..k] == Join(parts[..n], sep) + [sep] && s[k..] == Join(parts[n..], sep)
  {
    var parts := Split(s, sep);
    JoinSplit(s, sep);
    JoinConcat(parts[..n], parts[n..], sep);
    assert parts[..n] + parts[n..] == parts;
    SplitAtNth(parts, sep, n);
  }

  lemma {:induction false} CountAbsent(s: string, c: char)
    requires c !in s
    ensures Count(s, c) == 0
  {
    if s != [] {
      CountAbsent(s[1..], c);
    }
  }

  /** If `h` ends with `c`, the occurrence of `c` that ends `h` is the Count(h, c)-th one of `h + y`. */
  lemma {:induction false} IndexAfterPrefix(h: string, y: string, c: char)
    requires |h| > 0 && h[|h| - 1] == c
    ensures 1 <= Count(h, c) <= Count(h + y, c)
    ensures IndexAfterNth(h + y, c, Count(h, c)) == |h|
  {
    CountConcat(h, y, c);
    var t := h[1..];
    assert (h + y)[1..] == t + y;
    if t == [] {
      assert Count(h, c) == 1;
    } else {
      IndexAfterPrefix(t, y, c);
      CountConcat(t, y, c);
    }
  }

  /** Where the fourth separator of `a c b c x c d c rest` ends, when a, b, x and d hold no `c`. */
  lemma FourthSeparator(a: string, b: string, x: string, d: string, rest: string, c: char)
    requires c !in a && c !in b && c !in x && c !in d
    ensures var head := a + [c] + b + [c] + x + [c] + d + [c];
      var s := head + rest;
      && Count(s, c) >= 4 && IndexAfterNth(s, c, 4) == |head|
      && s[..|head|] == head && s[|head|..] == rest
  {
    var l1 := a + [c];
    var l2 := l1 + b + [c];
    var l3 := l2 + x + [c];
    var head := l3 + d + [c];
    CountAbsent(a, c);
    CountAbsent(b, c);
    CountAbsent(x, c);
    CountAbsent(d, c);
    CountConcat(a, [c], c);
    CountConcat(l1, b, c);
    CountConcat(l1 + b, [c], c);
    CountConcat(l2, x, c);
    CountConcat(l2 + x, [c], c);
    CountConcat(l3, d, c);
    CountConcat(l3 + d, [c], c);
    assert Count(head, c) == 4;
    IndexAfterPrefix(head, rest, c);
  }
}
