/** String primitives used by the generator: the parts of Go's `strings` and
    `path/filepath` packages that the core relies on, restated over `seq<char>`. */
module Strs {

  /** `prefix` is a prefix of `s` (Go's `strings.HasPrefix`). */
  predicate HasPrefix(s: string, prefix: string) {
    |prefix| <= |s| && s[..|prefix|] == prefix
  }

  /** `sub` occurs in `s` starting at position `i`. */
  predicate OccursAt(s: string, sub: string, i: int) {
    0 <= i && i + |sub| <= |s| && s[i..i + |sub|] == sub
  }

  /** Go's `strings.Index`: the first position at which `sub` occurs in `s`,
      or -1 when it occurs nowhere. */
  function Index(s: string, sub: string): (r: int)
    ensures r == -1 || OccursAt(s, sub, r)
    ensures r == -1 ==> forall j :: 0 <= j <= |s| ==> !OccursAt(s, sub, j)
    ensures forall j :: 0 <= j < r ==> !OccursAt(s, sub, j)
  {
    IndexFrom(s, sub, 0)
  }

  function IndexFrom(s: string, sub: string, i: nat): (r: int)
    requires i <= |s|
    requires forall j :: 0 <= j < i ==> !OccursAt(s, sub, j)
    ensures r == -1 || (i <= r && OccursAt(s, sub, r))
    ensures r == -1 ==> forall j :: 0 <= j <= |s| ==> !OccursAt(s, sub, j)
    ensures forall j :: 0 <= j < r ==> !OccursAt(s, sub, j)
    decreases |s| - i
  {
    if OccursAt(s, sub, i) then i
    else if i == |s| then -1
    else IndexFrom(s, sub, i + 1)
  }

  /** `strings.Index(s, p) != 0` is the source's way of saying "`s` does not
      start with `p`": the two agree on every input, the empty `p` included. */
  lemma IndexZeroIffPrefix(s: string, p: string)
    ensures Index(s, p) == 0 <==> HasPrefix(s, p)
  {
    if HasPrefix(s, p) {
      assert OccursAt(s, p, 0);
    }
  }

  /** Go's `strings.Replace(s, old, new, -1)` for a one-character `old`:
      every occurrence of `c`, left to right, becomes `rep`. */
  function ReplaceAll(s: string, c: char, rep: string): (r: string)
    ensures c !in rep ==> c !in r
    ensures forall d :: d in r ==> d in s || d in rep
  {
    if s == [] then []
    else (if s[0] == c then rep else [s[0]]) + ReplaceAll(s[1..], c, rep)
  }

  lemma {:induction false} ReplaceAllAppend(a: string, b: string, c: char, rep: string)
    ensures ReplaceAll(a + b, c, rep) == ReplaceAll(a, c, rep) + ReplaceAll(b, c, rep)
  {
    if a != [] {
      var h := if a[0] == c then rep else [a[0]];
      assert (a + b)[0] == a[0] && (a + b)[1..] == a[1..] + b;
      assert ReplaceAll(a + b, c, rep) == h + ReplaceAll(a[1..] + b, c, rep);
      ReplaceAllAppend(a[1..], b, c, rep);
      assert ReplaceAll(a, c, rep) == h + ReplaceAll(a[1..], c, rep);
      AppendAssoc(h, ReplaceAll(a[1..], c, rep), ReplaceAll(b, c, rep));
    } else {
      assert a + b == b;
    }
  }

  lemma ReplaceAllSingle(d: char, c: char, rep: string)
    ensures ReplaceAll([d], c, rep) == if d == c then rep else [d]
  {
    assert [d][1..] == [];
    assert ReplaceAll([d], c, rep) == (if d == c then rep else [d]) + ReplaceAll([], c, rep);
  }

  /** Replacing a character that does not occur changes nothing. */
  lemma {:induction false} ReplaceAllAbsent(s: string, c: char, rep: string)
    requires c !in s
    ensures ReplaceAll(s, c, rep) == s
  {
    if s != [] {
      assert s == [s[0]] + s[1..];
      ReplaceAllAbsent(s[1..], c, rep);
    }
  }

  /** A sequence that starts with `a` is `a` followed by the rest. */
  lemma PrefixRest<T>(a: seq<T>, s: seq<T>)
    requires |a| <= |s| && s[..|a|] == a
    ensures a + s[|a|..] == s
  {
    assert s == s[..|a|] + s[|a|..];
  }

  lemma AppendAssoc<T>(a: seq<T>, b: seq<T>, c: seq<T>)
    ensures a + (b + c) == a + b + c
  {
  }

  /** Go's `strings.Join`. */
  function Join(parts: seq<string>, sep: string): (r: string)
    ensures parts == [] ==> r == []
    ensures |parts| == 1 ==> r == parts[0]
  {
    if parts == [] then []
    else if |parts| == 1 then parts[0]
    else parts[0] + sep + Join(parts[1..], sep)
  }

  lemma JoinCons(x: string, parts: seq<string>, sep: string)
    requires parts != []
    ensures Join([x] + parts, sep) == x + sep + Join(parts, sep)
  {
    assert ([x] + parts)[1..] == parts;
  }

  /** Joining one more part adds a separator and the part. */
  lemma {:induction false} JoinSnoc(parts: seq<string>, x: string, sep: string)
    requires parts != []
    ensures Join(parts + [x], sep) == Join(parts, sep) + sep + x
  {
    if |parts| == 1 {
      assert parts + [x] == [parts[0], x];
      assert [parts[0], x][1..] == [x];
    } else {
      assert (parts + [x])[1..] == parts[1..] + [x];
      JoinSnoc(parts[1..], x, sep);
    }
  }

  /** The position of the last `c` in `s`, or -1. */
  function LastIndex(s: string, c: char): (r: int)
    ensures -1 <= r < |s|
    ensures r >= 0 ==> s[r] == c && c !in s[r + 1..]
    ensures r == -1 <==> c !in s
  {
    if s == [] then -1
    else if s[|s| - 1] == c then |s| - 1
    else
      var init := s[..|s| - 1];
      var r := LastIndex(init, c);
      assert s == init + [s[|s| - 1]];
      assert r >= 0 ==> s[r + 1..] == init[r + 1..] + [s[|s| - 1]];
      r
  }

  /** Appending text without `c` leaves the last `c` where it was. */
  lemma {:induction false} LastIndexAppendAbsent(s: string, t: string, c: char)
    requires c !in t
    ensures LastIndex(s + t, c) == LastIndex(s, c)
  {
    if t == [] {
      assert s + t == s;
    } else {
      var t' := t[..|t| - 1];
      assert (s + t)[..|s + t| - 1] == s + t';
      assert t[|t| - 1] in t;
      LastIndexAppendAbsent(s, t', c);
    }
  }

  /** Appending `c` and then text without `c` puts the last `c` at the seam. */
  lemma LastIndexAtSeam(s: string, t: string, c: char)
    requires c !in t
    ensures LastIndex(s + [c] + t, c) == |s|
  {
    LastIndexAppendAbsent(s + [c], t, c);
  }
}
