/**
 * The three PHP string built-ins the descriptor parser relies on:
 * `explode` with a one-character separator, `trim` with its default
 * character set, and `empty` applied to a string.
 *
 * A PHP string is a sequence of bytes; here each `char` stands for one byte.
 * Every separator and blank character involved is ASCII, so multi-byte
 * UTF-8 characters are never split or stripped.
 */
module PhpStrings {

  // ---------------------------------------------------------------------
  // explode
  // ---------------------------------------------------------------------

  /** Index of the first occurrence of `c` in `s`. */
  function IndexOf(s: string, c: char): (i: nat)
    requires c in s
    ensures i < |s| && s[i] == c
    ensures c !in s[..i]
  {
    if s[0] == c then 0
    else
      assert c in s[1..] by { assert s == [s[0]] + s[1..]; }
      1 + IndexOf(s[1..], c)
  }

  /** The pieces joined back together with `c` between neighbours (PHP `implode`). */
  function Join(parts: seq<string>, c: char): (s: string)
    requires |parts| >= 1
  {
    if |parts| == 1 then parts[0] else parts[0] + [c] + Join(parts[1..], c)
  }

  /**
   * PHP `explode(c, s)` without a limit: every piece between separators,
   * empty ones included, so there is always at least one piece.
   */
  function Explode(s: string, c: char): (parts: seq<string>)
    ensures |parts| >= 1
    ensures forall i :: 0 <= i < |parts| ==> c !in parts[i]
    ensures |parts| == 1 <==> c !in s
    ensures c !in s ==> parts == [s]
    decreases |s|
  {
    if c !in s then [s]
    else
      var i := IndexOf(s, c);
      assert s == s[..i] + [c] + s[i + 1..];
      [s[..i]] + Explode(s[i + 1..], c)
  }

  /** Gluing the pieces back together with `c` gives the original string. */
  lemma {:induction false} ExplodeImplode(s: string, c: char)
    ensures Join(Explode(s, c), c) == s
    decreases |s|
  {
    if c in s {
      var i := IndexOf(s, c);
      ExplodeImplode(s[i + 1..], c);
      SplitAround(s, i);
    }
  }

  /** A character absent from `s` is absent from every piece of it. */
  lemma {:induction false} ExplodeAvoids(s: string, c: char, ch: char)
    requires ch !in s
    ensures forall i :: 0 <= i < |Explode(s, c)| ==> ch !in Explode(s, c)[i]
    decreases |s|
  {
    if c in s {
      var i := IndexOf(s, c);
      assert ch !in s[..i] && ch !in s[i + 1..];
      ExplodeAvoids(s[i + 1..], c, ch);
    }
  }

  /** Exploding a piece free of `c`, followed by `c`, splits off exactly that piece. */
  lemma {:induction false} ExplodeCons(p: string, c: char, t: string)
    requires c !in p
    ensures Explode(p + [c] + t, c) == [p] + Explode(t, c)
  {
    var s := p + [c] + t;
    assert s[|p|] == c;
    assert forall j :: 0 <= j < |p| ==> s[j] == p[j];
    var i := IndexOf(s, c);
    assert i == |p| by {
      assert forall j :: 0 <= j < i ==> s[..i][j] == s[j];
    }
    assert s[..i] == p;
    assert s[i + 1..] == t;
  }

  /**
   * With `a` the first separator and `b` the next one (or the end of `s`),
   * the first two pieces are `s[..a]` and `s[a + 1..b]`.
   */
  lemma ExplodeFirstTwo(s: string, c: char, a: nat, b: nat)
    requires a < b <= |s| && s[a] == c && c !in s[..a]
    requires c !in s[a + 1..b] && (b < |s| ==> s[b] == c)
    ensures |Explode(s, c)| >= 2
    ensures Explode(s, c)[0] == s[..a] && Explode(s, c)[1] == s[a + 1..b]
  {
    var rest := s[a + 1..];
    ExplodeFirst(s, c, a);
    PrefixOfSuffix(s, a + 1, b);
    ExplodeHead(rest, c, b - a - 1);
  }

  /** The first separator ends the first piece; the rest is the split of what follows. */
  lemma ExplodeFirst(s: string, c: char, a: nat)
    requires a < |s| && s[a] == c && c !in s[..a]
    ensures Explode(s, c) == [s[..a]] + Explode(s[a + 1..], c)
  {
    IndexOfFirst(s, c, a);
  }

  /** An occurrence of `c` with none before it is the one `IndexOf` finds. */
  lemma IndexOfFirst(s: string, c: char, a: nat)
    requires a < |s| && s[a] == c && c !in s[..a]
    ensures c in s && IndexOf(s, c) == a
  {
    var i := IndexOf(s, c);
    assert forall j :: 0 <= j < a ==> s[..a][j] == s[j];
    assert forall j :: 0 <= j < i ==> s[..i][j] == s[j];
  }

  /** The first piece runs up to the first separator (or to the end). */
  lemma ExplodeHead(s: string, c: char, b: nat)
    requires b <= |s| && c !in s[..b] && (b < |s| ==> s[b] == c)
    ensures Explode(s, c)[0] == s[..b]
  {
    if b < |s| {
      IndexOfFirst(s, c, b);
    } else {
      assert s[..b] == s;
    }
  }

  lemma PrefixOfSuffix(s: string, a: nat, b: nat)
    requires a <= b <= |s|
    ensures s[a..][..b - a] == s[a..b]
  {
  }

  lemma SplitAround(s: string, i: nat)
    requires i < |s|
    ensures s == s[..i] + [s[i]] + s[i + 1..]
  {
  }

  /** `explode` undoes `implode` whenever no piece holds the separator. */
  lemma {:induction false} ExplodeJoin(parts: seq<string>, c: char)
    requires |parts| >= 1
    requires forall i :: 0 <= i < |parts| ==> c !in parts[i]
    ensures Explode(Join(parts, c), c) == parts
    decreases |parts|
  {
    if |parts| == 1 {
      assert c !in Join(parts, c);
    } else {
      ExplodeJoin(parts[1..], c);
      ExplodeCons(parts[0], c, Join(parts[1..], c));
    }
  }

  // ---------------------------------------------------------------------
  // trim
  // ---------------------------------------------------------------------

  /** The characters PHP's `trim` strips by default: " \t\n\r\0\x0B". */
  predicate IsPhpSpace(ch: char)
  {
    ch == ' ' || ch == '\t' || ch == '\n' || ch == '\r' || ch == '\0' || ch == '\U{000B}'
  }

  predicate AllSpace(s: string)
  {
    forall i :: 0 <= i < |s| ==> IsPhpSpace(s[i])
  }

  /** Neither end of `s` is a blank character. */
  predicate IsTrimmed(s: string)
  {
    s == [] || (!IsPhpSpace(s[0]) && !IsPhpSpace(s[|s| - 1]))
  }

  /** PHP `ltrim(s)`: strip blank characters from the front. */
  function TrimLeft(s: string): (r: string)
    ensures |r| <= |s|
    ensures r == [] || !IsPhpSpace(r[0])
  {
    if s != [] && IsPhpSpace(s[0]) then TrimLeft(s[1..]) else s
  }

  /** PHP `rtrim(s)`: strip blank characters from the back. */
  function TrimRight(s: string): (r: string)
    ensures |r| <= |s|
    ensures r == [] || !IsPhpSpace(r[|r| - 1])
    ensures r != [] ==> r[0] == s[0]
  {
    if s != [] && IsPhpSpace(s[|s| - 1]) then TrimRight(s[..|s| - 1]) else s
  }

  /** PHP `trim(s)`: strip blank characters from both ends. */
  function Trim(s: string): (r: string)
    ensures IsTrimmed(r)
    ensures |r| <= |s|
  {
    TrimRight(TrimLeft(s))
  }

  /** Blank padding in front is removed whole, and nothing more. */
  lemma {:induction false} TrimLeftPadding(a: string, x: string)
    requires AllSpace(a) && (x == [] || !IsPhpSpace(x[0]))
    ensures TrimLeft(a + x) == x
    decreases |a|
  {
    if a != [] {
      assert (a + x)[1..] == a[1..] + x;
      TrimLeftPadding(a[1..], x);
    }
  }

  /** Blank padding behind is removed whole, and nothing more. */
  lemma {:induction false} TrimRightPadding(x: string, b: string)
    requires AllSpace(b) && (x == [] || !IsPhpSpace(x[|x| - 1]))
    ensures TrimRight(x + b) == x
    decreases |b|
  {
    if b != [] {
      assert (x + b)[..|x + b| - 1] == x + b[..|b| - 1];
      TrimRightPadding(x, b[..|b| - 1]);
    }
  }

  /** `ltrim` returns a suffix of its argument. */
  lemma {:induction false} TrimLeftSuffix(s: string)
    ensures TrimLeft(s) == s[|s| - |TrimLeft(s)|..]
    decreases |s|
  {
    if s != [] && IsPhpSpace(s[0]) {
      TrimLeftSuffix(s[1..]);
    }
  }

  /** `rtrim` returns a prefix of its argument. */
  lemma {:induction false} TrimRightPrefix(s: string)
    ensures TrimRight(s) == s[..|TrimRight(s)|]
    decreases |s|
  {
    if s != [] && IsPhpSpace(s[|s| - 1]) {
      TrimRightPrefix(s[..|s| - 1]);
    }
  }

  /**
   * The independent description of `trim`: whatever blank padding surrounds
   * a trimmed string, `trim` returns exactly that string.
   */
  lemma TrimUnique(a: string, m: string, b: string)
    requires AllSpace(a) && AllSpace(b) && IsTrimmed(m)
    ensures Trim(a + m + b) == m
  {
    if m == [] {
      assert a + m + b == (a + b) + [];
      assert AllSpace(a + b);
      TrimLeftPadding(a + b, []);
    } else {
      assert a + m + b == a + (m + b);
      TrimLeftPadding(a, m + b);
      TrimRightPadding(m, b);
    }
  }

  /** `trim` only removes characters. */
  lemma TrimAvoids(s: string, ch: char)
    requires ch !in s
    ensures ch !in Trim(s)
  {
    TrimLeftSuffix(s);
    var t := TrimLeft(s);
    assert ch !in t;
    TrimRightPrefix(t);
  }

  /** `trim` is idempotent. */
  lemma TrimIdempotent(s: string)
    ensures Trim(Trim(s)) == Trim(s)
  {
    var r := Trim(s);
    assert r == [] + r + [];
    TrimUnique([], r, []);
  }

  // ---------------------------------------------------------------------
  // empty
  // ---------------------------------------------------------------------

  /** PHP `empty($s)` for a string: true for "" and for "0", and for nothing else. */
  predicate PhpEmpty(s: string)
  {
    s == "" || s == "0"
  }

  // ---------------------------------------------------------------------
  // array_map(trim) and array_filter(!empty(trim(...)))
  // ---------------------------------------------------------------------

  /** The `array_map` step: a new list holding every element trimmed. */
  function TrimAll(parts: seq<string>): (r: seq<string>)
    ensures |r| == |parts|
    ensures forall i :: 0 <= i < |parts| ==> r[i] == Trim(parts[i])
  {
    if parts == [] then [] else [Trim(parts[0])] + TrimAll(parts[1..])
  }

  /** `a` occurs in `b` in order, possibly with gaps. */
  predicate IsSubsequence(a: seq<string>, b: seq<string>)
    decreases |b|
  {
    if a == [] then true
    else if b == [] then false
    else if a[0] == b[0] then IsSubsequence(a[1..], b[1..])
    else IsSubsequence(a, b[1..])
  }

  /** The filter the parser applies to each comma section: not `empty(trim(...))`. */
  predicate Survives(t: string)
  {
    !PhpEmpty(Trim(t))
  }

  /**
   * `array_filter(parts, fn)` followed by re-indexing: the elements that
   * survive, in their original order.
   */
  function KeepNonEmpty(parts: seq<string>): (r: seq<string>)
    ensures |r| <= |parts|
  {
    if parts == [] then []
    else if Survives(parts[0]) then [parts[0]] + KeepNonEmpty(parts[1..])
    else KeepNonEmpty(parts[1..])
  }

  /**
   * The filter's content, element by element: a single element is kept
   * exactly when it passes, and the filter of a concatenation is the
   * concatenation of the filters. Together these fix the result, repeated
   * elements included.
   */
  lemma {:induction false} KeepNonEmptyAppend(a: seq<string>, b: seq<string>)
    ensures KeepNonEmpty(a + b) == KeepNonEmpty(a) + KeepNonEmpty(b)
    ensures |a| == 1 ==> KeepNonEmpty(a) == if Survives(a[0]) then a else []
  {
    if a == [] {
      assert a + b == b;
    } else {
      assert (a + b)[1..] == a[1..] + b;
      KeepNonEmptyAppend(a[1..], b);
    }
  }

  /** What the filter keeps passes it, comes from the input, and keeps its order. */
  lemma {:induction false} KeepNonEmptySound(parts: seq<string>)
    ensures IsSubsequence(KeepNonEmpty(parts), parts)
    ensures forall i :: 0 <= i < |KeepNonEmpty(parts)| ==>
      Survives(KeepNonEmpty(parts)[i]) && KeepNonEmpty(parts)[i] in parts
  {
    if parts != [] {
      var tail := KeepNonEmpty(parts[1..]);
      KeepNonEmptySound(parts[1..]);
      forall i | 0 <= i < |tail| ensures tail[i] in parts {
        assert tail[i] in parts[1..];
      }
      if Survives(parts[0]) {
        assert KeepNonEmpty(parts) == [parts[0]] + tail;
        assert ([parts[0]] + tail)[1..] == tail;
      } else {
        assert KeepNonEmpty(parts) == tail;
        IsSubsequenceSkip(tail, parts);
      }
    }
  }

  /** Dropping the head of `b` keeps a subsequence of its tail a subsequence of `b`. */
  lemma {:induction false} IsSubsequenceSkip(a: seq<string>, b: seq<string>)
    requires b != [] && IsSubsequence(a, b[1..])
    ensures IsSubsequence(a, b)
    decreases |b|, 0
  {
    if a != [] && a[0] == b[0] {
      // b[1..] starts with a[0] somewhere; taking b[0] for it is as good
      IsSubsequenceTail(a, b[1..]);
    }
  }

  /** A subsequence stays one after its first element is dropped. */
  lemma {:induction false} IsSubsequenceTail(a: seq<string>, b: seq<string>)
    requires a != [] && IsSubsequence(a, b)
    ensures IsSubsequence(a[1..], b)
    decreases |b|, 1
  {
    if a[0] == b[0] {
      if b[1..] != [] && a[1..] != [] {
        IsSubsequenceSkip(a[1..], b);
      }
    } else {
      IsSubsequenceTail(a, b[1..]);
      if a[1..] != [] {
        IsSubsequenceSkip(a[1..], b);
      }
    }
  }

  /** Nothing that passes the filter is lost. */
  lemma {:induction false} KeepNonEmptyComplete(parts: seq<string>, i: nat)
    requires i < |parts| && Survives(parts[i])
    ensures parts[i] in KeepNonEmpty(parts)
  {
    var tail := KeepNonEmpty(parts[1..]);
    if i == 0 {
      assert KeepNonEmpty(parts) == [parts[0]] + tail;
    } else {
      assert parts[i] == parts[1..][i - 1];
      KeepNonEmptyComplete(parts[1..], i - 1);
      assert KeepNonEmpty(parts) == tail || KeepNonEmpty(parts) == [parts[0]] + tail;
    }
  }
}
