/** The parts of Python's `str` that the EXIF parser relies on: `isspace`,
    `strip`, `find`, `split` on one separator character and slicing with
    possibly negative bounds. Strings are sequences of Unicode scalar values,
    as Python 3 strings are. */
module PyText {

  /** Python's `str.isspace` on one character: exactly the characters that
      `str.strip()` without arguments removes. */
  predicate IsSpace(c: char) {
    var n := c as int;
    || n == 0x20
    || 0x09 <= n <= 0x0D
    || 0x1C <= n <= 0x1F
    || n == 0x85
    || n == 0xA0
    || n == 0x1680
    || 0x2000 <= n <= 0x200A
    || n == 0x2028
    || n == 0x2029
    || n == 0x202F
    || n == 0x205F
    || n == 0x3000
  }

  /** Every character of `s` in `[lo, hi)` is whitespace. */
  predicate SpaceBetween(s: string, lo: int, hi: int) {
    forall k | lo <= k < hi && 0 <= k < |s| :: IsSpace(s[k])
  }

  /** `s` is whitespace only. */
  predicate AllSpace(s: string) {
    SpaceBetween(s, 0, |s|)
  }

  /** Number of whitespace characters at the front of `s`. */
  function LeadingSpace(s: string): (n: nat)
    ensures n <= |s|
    ensures SpaceBetween(s, 0, n)
    ensures n < |s| ==> !IsSpace(s[n])
  {
    if |s| == 0 || !IsSpace(s[0]) then 0 else LeadingSpace(s[1..]) + 1
  }

  /** Length of `s` once its trailing whitespace is cut off. */
  function TrailingCut(s: string): (n: nat)
    ensures n <= |s|
    ensures SpaceBetween(s, n, |s|)
    ensures n > 0 ==> !IsSpace(s[n - 1])
  {
    if |s| == 0 || !IsSpace(s[|s| - 1]) then |s| else TrailingCut(s[..|s| - 1])
  }

  /** `r` is what stripping `s` must give: a slice of `s` with only
      whitespace around it, and no whitespace at either of its own ends. */
  ghost predicate StripsTo(s: string, r: string) {
    exists i, j | 0 <= i <= j <= |s| :: StripsAt(s, r, i, j)
  }

  /** `r` is `s[i..j]`, the whitespace-free core of `s`. */
  ghost predicate StripsAt(s: string, r: string, i: nat, j: nat)
    requires i <= j <= |s|
  {
    && r == s[i..j]
    && SpaceBetween(s, 0, i)
    && SpaceBetween(s, j, |s|)
    && (i < j ==> !IsSpace(s[i]) && !IsSpace(s[j - 1]))
  }

  /** Python's `s.strip()`. */
  function Strip(s: string): (r: string)
    ensures StripsTo(s, r)
  {
    var i := LeadingSpace(s);
    var j := TrailingCut(s);
    if j <= i then
      assert StripsAt(s, [], i, i);
      []
    else
      assert StripsAt(s, s[i..j], i, j);
      s[i..j]
  }

  /** A string has only one stripped form: `StripsTo` is a specification of
      `Strip` independent of how `Strip` computes. */
  lemma StripsToUnique(s: string, r1: string, r2: string)
    requires StripsTo(s, r1) && StripsTo(s, r2)
    ensures r1 == r2
  {
    var i1, j1 :| 0 <= i1 <= j1 <= |s| && StripsAt(s, r1, i1, j1);
    var i2, j2 :| 0 <= i2 <= j2 <= |s| && StripsAt(s, r2, i2, j2);
    StripsAtUnique(s, r1, i1, j1, r2, i2, j2);
  }

  lemma StripsAtUnique(s: string, r1: string, i1: nat, j1: nat, r2: string, i2: nat, j2: nat)
    requires i1 <= j1 <= |s| && i2 <= j2 <= |s|
    requires StripsAt(s, r1, i1, j1) && StripsAt(s, r2, i2, j2)
    ensures r1 == r2
  {
    if i1 < j1 && i2 < j2 {
      assert i1 == i2 && j1 == j2;
    }
  }

  /** Stripping twice is stripping once. */
  lemma StripIdempotent(s: string)
    ensures Strip(Strip(s)) == Strip(s)
  {
    var r := Strip(s);
    var i, j :| 0 <= i <= j <= |s| && StripsAt(s, r, i, j);
    assert StripsAt(r, r, 0, |r|);
    StripsToUnique(r, Strip(r), r);
  }

  /** Stripping removes only whitespace: every other character keeps its count. */
  lemma StripKeepsSolidChars(s: string, c: char)
    requires !IsSpace(c)
    ensures multiset(Strip(s))[c] == multiset(s)[c]
  {
    var i := LeadingSpace(s);
    var j := TrailingCut(s);
    if j <= i {
      CountNone(s, c);
    } else {
      CountThree(s, i, j, c);
      CountNone(s[..i], c);
      CountNone(s[j..], c);
    }
  }

  /** Counting over `s` is counting over three consecutive slices of it. */
  lemma CountThree(s: string, i: nat, j: nat, c: char)
    requires i <= j <= |s|
    ensures multiset(s)[c] == multiset(s[..i])[c] + multiset(s[i..j])[c] + multiset(s[j..])[c]
  {
    assert s == s[..i] + s[i..j] + s[j..];
  }

  /** Python's `s.find(c)` for a one-character needle: the first index of
      `c`, or -1 when `c` does not occur. */
  function Find(s: string, c: char): (k: int)
    ensures -1 <= k < |s|
    ensures k == -1 ==> forall j | 0 <= j < |s| :: s[j] != c
    ensures 0 <= k ==> s[k] == c && forall j | 0 <= j < k :: s[j] != c
  {
    if |s| == 0 then -1
    else if s[0] == c then 0
    else
      var k := Find(s[1..], c);
      if k == -1 then -1 else k + 1
  }

  /** A slice bound as Python reads it: a negative bound counts from the
      end, and bounds outside the string are clamped to it. */
  function SliceBound(k: int, n: nat): (b: nat)
    ensures b <= n
    ensures 0 <= k <= n ==> b == k
    ensures k < 0 <= n + k ==> b == n + k
    ensures n < k ==> b == n
    ensures n + k < 0 ==> b == 0
  {
    if k < 0 then (if n + k < 0 then 0 else n + k)
    else if k > n then n
    else k
  }

  /** Python's `s[:k]`. */
  function SliceTo(s: string, k: int): (r: string)
    ensures |r| == SliceBound(k, |s|) && r == s[..|r|]
  {
    s[..SliceBound(k, |s|)]
  }

  /** Python's `s[k:]`. */
  function SliceFrom(s: string, k: int): (r: string)
    ensures |r| == |s| - SliceBound(k, |s|) && r == s[|s| - |r|..]
  {
    s[SliceBound(k, |s|)..]
  }

  /** `s[:k]` and `s[k:]` cut `s` in two at the same place. */
  lemma SliceToFromJoin(s: string, k: int)
    ensures SliceTo(s, k) + SliceFrom(s, k) == s
  {
  }

  /** `s[:-1]`: everything but the last character, and nothing for "". */
  lemma SliceToMinusOne(s: string)
    ensures s == [] ==> SliceTo(s, -1) == []
    ensures s != [] ==> SliceTo(s, -1) + [s[|s| - 1]] == s
  {
    if s != [] {
      assert s == s[..|s| - 1] + [s[|s| - 1]];
    }
  }

  /** Python's `s.split(sep)` for a one-character separator: the pieces
      between the separators, in order, read off one character at a time.
      `SplitFindCut` shows it agrees with cutting at `find(sep)` repeatedly. */
  function Split(s: string, sep: char): (parts: seq<string>)
    ensures |parts| >= 1
  {
    if s == [] then [[]]
    else
      var rest := Split(s[1..], sep);
      if s[0] == sep then [[]] + rest else [[s[0]] + rest[0]] + rest[1..]
  }

  /** Splitting is cutting at the first separator and splitting what follows it. */
  lemma {:induction false} SplitFindCut(s: string, sep: char)
    ensures Find(s, sep) < 0 ==> Split(s, sep) == [s]
    ensures Find(s, sep) >= 0 ==>
      Split(s, sep) == [s[..Find(s, sep)]] + Split(s[Find(s, sep) + 1..], sep)
  {
    if s != [] && s[0] != sep {
      var t := s[1..];
      SplitFindCut(t, sep);
      SolidHead(s, sep);
      if Find(t, sep) >= 0 {
        ShiftCut(s, Find(t, sep));
      } else {
        assert s == [s[0]] + t;
      }
    }
  }

  /** A first character that is not the separator joins the first piece and
      moves the first separator one place on. */
  lemma SolidHead(s: string, sep: char)
    requires s != [] && s[0] != sep
    ensures Split(s, sep) == [[s[0]] + Split(s[1..], sep)[0]] + Split(s[1..], sep)[1..]
    ensures Find(s, sep) == if Find(s[1..], sep) < 0 then -1 else Find(s[1..], sep) + 1
  {
  }

  /** Cutting `s` after its first character and then at `k` is cutting it at `k + 1`. */
  lemma ShiftCut(s: string, k: nat)
    requires k + 1 < |s|
    ensures s[..k + 1] == [s[0]] + s[1..][..k]
    ensures s[k + 2..] == s[1..][k + 1..]
  {
  }

  /** No piece of a split holds the separator. */
  lemma {:induction false} SplitPiecesFree(s: string, sep: char)
    ensures forall i | 0 <= i < |Split(s, sep)| :: sep !in Split(s, sep)[i]
  {
    if s != [] {
      SplitPiecesFree(s[1..], sep);
    }
  }

  /** `sep.join(parts)`. */
  function Join(parts: seq<string>, sep: char): (s: string)
  {
    if |parts| == 0 then []
    else if |parts| == 1 then parts[0]
    else parts[0] + [sep] + Join(parts[1..], sep)
  }

  /** Joining the pieces back gives the original text. */
  lemma {:induction false} JoinSplit(s: string, sep: char)
    ensures Join(Split(s, sep), sep) == s
  {
    if s != [] {
      var rest := Split(s[1..], sep);
      JoinSplit(s[1..], sep);
      if s[0] == sep {
        JoinCons([], rest, sep);
      } else {
        JoinGrow(s[0], rest, sep);
      }
      assert s == [s[0]] + s[1..];
    }
  }

  lemma JoinCons(p: string, rest: seq<string>, sep: char)
    requires |rest| >= 1
    ensures Join([p] + rest, sep) == p + [sep] + Join(rest, sep)
  {
    assert ([p] + rest)[1..] == rest;
  }

  /** Putting a character in front of the first piece puts it in front of the join. */
  lemma JoinGrow(c: char, parts: seq<string>, sep: char)
    requires |parts| >= 1
    ensures Join([[c] + parts[0]] + parts[1..], sep) == [c] + Join(parts, sep)
  {
    if |parts| > 1 {
      JoinCons([c] + parts[0], parts[1..], sep);
      assert parts == [parts[0]] + parts[1..];
      JoinCons(parts[0], parts[1..], sep);
    }
  }

  /** Splitting a join of separator-free pieces gives the pieces back. */
  lemma {:induction false} SplitJoin(parts: seq<string>, sep: char)
    requires |parts| >= 1
    requires forall i | 0 <= i < |parts| :: sep !in parts[i]
    ensures Split(Join(parts, sep), sep) == parts
  {
    SplitFree(parts[0], sep);
    if |parts| > 1 {
      SplitAround(parts[0], Join(parts[1..], sep), sep);
      SplitJoin(parts[1..], sep);
      assert parts == [parts[0]] + parts[1..];
    }
  }

  /** Text without a separator is a single piece. */
  lemma {:induction false} SplitFree(s: string, sep: char)
    requires sep !in s
    ensures Split(s, sep) == [s]
  {
    if s != [] {
      SplitFree(s[1..], sep);
      assert s == [s[0]] + s[1..];
    }
  }

  /** The first separator in `a + b` is in `b` when `a` holds none. */
  lemma FindAfterFree(a: string, b: string, c: char)
    requires c !in a
    requires |b| > 0 && b[0] == c
    ensures Find(a + b, c) == |a|
  {
    var s := a + b;
    assert s[|a|] == c;
    assert c in s;
  }

  /** The split of a concatenation around a separator is the concatenation of the splits. */
  lemma {:induction false} SplitAround(a: string, b: string, sep: char)
    ensures Split(a + [sep] + b, sep) == Split(a, sep) + Split(b, sep)
  {
    var s := a + [sep] + b;
    if a == [] {
      assert s[1..] == b;
    } else {
      assert s[1..] == a[1..] + [sep] + b;
      SplitAround(a[1..], b, sep);
    }
  }

  /** A split yields one piece more than there are separators. */
  lemma {:induction false} SplitCount(s: string, sep: char)
    ensures |Split(s, sep)| == multiset(s)[sep] + 1
  {
    if s != [] {
      SplitCount(s[1..], sep);
      assert s == [s[0]] + s[1..];
    }
  }

  /** A string with no `c` counts no `c`. */
  lemma CountNone(s: string, c: char)
    requires forall j | 0 <= j < |s| :: s[j] != c
    ensures multiset(s)[c] == 0
  {
  }
}
