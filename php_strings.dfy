/** The PHP string and array library calls the behaviour relies on:
    `trim`, `strpos`, `substr` (through CakePHP's Multibyte wrappers),
    `explode`, `implode` and `array_unique`. Strings are sequences of
    characters; no encoding is modelled. */
module PhpStrings {
  import opened PhpValues

  /** The characters `trim()` strips by default: space, tab, newline,
      carriage return, NUL and vertical tab. */
  const TrimChars: set<char> := {' ', '\t', '\n', '\r', '\0', '\U{0B}'}

  predicate AllTrimChars(s: string) {
    forall i :: 0 <= i < |s| ==> s[i] in TrimChars
  }

  /** Neither end of `s` is a character `trim()` would strip. */
  predicate Trimmed(s: string) {
    s == [] || (s[0] !in TrimChars && s[|s| - 1] !in TrimChars)
  }

  function TrimLeft(s: string): (r: string)
    ensures |r| <= |s| && r == s[|s| - |r|..]
    ensures AllTrimChars(s[..|s| - |r|])
    ensures r == [] || r[0] !in TrimChars
  {
    if s != [] && s[0] in TrimChars then TrimLeft(s[1..]) else s
  }

  function TrimRight(s: string): (r: string)
    ensures |r| <= |s| && r == s[..|r|]
    ensures AllTrimChars(s[|r|..])
    ensures r == [] || r[|r| - 1] !in TrimChars
  {
    if s != [] && s[|s| - 1] in TrimChars then TrimRight(s[..|s| - 1]) else s
  }

  /** PHP's `trim($s)`. */
  function Trim(s: string): (r: string)
    ensures Trimmed(r)
    ensures |r| <= |s|
  {
    var l := TrimLeft(s);
    var r := TrimRight(l);
    assert r != [] ==> r[0] == l[0];
    r
  }

  /** `trim` answers `s` with its strippable characters removed from both
      ends, and nothing else: a slice of `s` with only strippable
      characters around it. */
  lemma TrimSlice(s: string)
    ensures exists a, b :: 0 <= a <= b <= |s| && Trim(s) == s[a..b] && AllTrimChars(s[..a]) && AllTrimChars(s[b..])
  {
    var l := TrimLeft(s);
    var r := TrimRight(l);
    var a := |s| - |l|;
    var b := a + |r|;
    assert r == s[a..b];
    assert s[b..] == l[|r|..];
  }

  /** `trim` leaves exactly the trimmed strings alone; in particular it is
      idempotent. */
  lemma TrimFixpoint(s: string)
    ensures Trim(s) == s <==> Trimmed(s)
    ensures Trim(Trim(s)) == Trim(s)
  {
  }

  /** `array_map('trim', $xs)`. */
  function TrimAll(xs: seq<string>): (r: seq<string>)
    ensures |r| == |xs|
    ensures forall i :: 0 <= i < |xs| ==> r[i] == Trim(xs[i])
  {
    seq(|xs|, i requires 0 <= i < |xs| => Trim(xs[i]))
  }

  /** Trimming strings that are already trimmed changes nothing. */
  lemma TrimAllTrimmed(xs: seq<string>)
    requires forall i :: 0 <= i < |xs| ==> Trimmed(xs[i])
    ensures TrimAll(xs) == xs
  {
    forall i | 0 <= i < |xs| ensures Trim(xs[i]) == xs[i] {
      TrimFixpoint(xs[i]);
    }
  }

  predicate OccursAt(s: string, d: string, i: nat) {
    i + |d| <= |s| && s[i..i + |d|] == d
  }

  function FindFrom(s: string, d: string, i: nat): (r: Option<nat>)
    ensures r.Some? ==> i <= r.value && OccursAt(s, d, r.value)
    ensures r.Some? ==> forall j :: i <= j < r.value ==> !OccursAt(s, d, j)
    ensures r.None? ==> forall j :: i <= j ==> !OccursAt(s, d, j)
    decreases |s| - i
  {
    if i + |d| > |s| then None
    else if s[i..i + |d|] == d then Some(i)
    else FindFrom(s, d, i + 1)
  }

  /** `strpos($s, $d)`: the first position at which `d` occurs in `s`,
      or None for PHP's `false`. */
  function Find(s: string, d: string): (r: Option<nat>)
    ensures r.Some? ==> OccursAt(s, d, r.value)
    ensures r.Some? ==> forall j :: 0 <= j < r.value ==> !OccursAt(s, d, j)
    ensures r.None? ==> forall j :: 0 <= j ==> !OccursAt(s, d, j)
  {
    FindFrom(s, d, 0)
  }

  /** Find is determined by its contract. */
  lemma FindUnique(s: string, d: string, r: Option<nat>)
    requires r.Some? ==> OccursAt(s, d, r.value)
    requires r.Some? ==> forall j :: 0 <= j < r.value ==> !OccursAt(s, d, j)
    requires r.None? ==> forall j :: 0 <= j ==> !OccursAt(s, d, j)
    ensures Find(s, d) == r
  {
  }

  /** An occurrence inside a prefix is an occurrence in the whole string,
      and an occurrence that ends inside the prefix is one of the prefix. */
  lemma OccursInPrefix(p: string, u: string, d: string, j: nat)
    requires j + |d| <= |p|
    ensures OccursAt(p + u, d, j) <==> OccursAt(p, d, j)
  {
    assert (p + u)[j..j + |d|] == p[j..j + |d|];
  }

  /** `explode($d, $s)`: the pieces of `s` between the occurrences of `d`,
      found from left to right. */
  function Explode(d: string, s: string): (parts: seq<string>)
    requires |d| > 0
    ensures |parts| >= 1
    decreases |s|
  {
    match Find(s, d)
    case None => [s]
    case Some(i) => [s[..i]] + Explode(d, s[i + |d|..])
  }

  /** `implode($d, $xs)`: the pieces joined with `d` between neighbours. */
  function Implode(d: string, xs: seq<string>): (s: string)
  {
    if |xs| == 0 then ""
    else if |xs| == 1 then xs[0]
    else xs[0] + d + Implode(d, xs[1..])
  }

  /** Joining the pieces of `s` again gives back `s`. */
  lemma {:induction false} ImplodeExplode(d: string, s: string)
    requires |d| > 0
    ensures Implode(d, Explode(d, s)) == s
    decreases |s|
  {
    match Find(s, d)
    case None =>
    case Some(i) =>
      var rest := s[i + |d|..];
      var ps := Explode(d, rest);
      ImplodeExplode(d, rest);
      assert Explode(d, s) == [s[..i]] + ps;
      assert ([s[..i]] + ps)[1..] == ps;
      assert Implode(d, [s[..i]] + ps) == s[..i] + d + rest;
      assert s == s[..i] + s[i..i + |d|] + rest;
  }

  /** No piece that `explode` returns contains the delimiter. */
  lemma {:induction false} ExplodePiecesFree(d: string, s: string, k: nat)
    requires |d| > 0 && k < |Explode(d, s)|
    ensures Find(Explode(d, s)[k], d).None?
    decreases |s|
  {
    match Find(s, d)
    case None =>
    case Some(i) =>
      if k == 0 {
        forall j: nat | OccursAt(s[..i], d, j) ensures false {
          assert s == s[..i] + s[i..];
          OccursInPrefix(s[..i], s[i..], d, j);
        }
      } else {
        ExplodePiecesFree(d, s[i + |d|..], k - 1);
      }
  }

  /** `d` first occurs in `x + d` at the end of `x`: splitting the joined
      text will cut exactly after `x`. */
  predicate CleanBefore(x: string, d: string) {
    Find(x + d, d) == Some(|x|)
  }

  /** After a cleanly cut piece, the first delimiter is the one that
      follows it, whatever comes next. */
  lemma FindAfterClean(x: string, d: string, rest: string)
    requires CleanBefore(x, d)
    ensures Find(x + d + rest, d) == Some(|x|)
  {
    var t := x + d + rest;
    assert t == (x + d) + rest;
    OccursInPrefix(x + d, rest, d, |x|);
    forall j: nat | j < |x| ensures !OccursAt(t, d, j) {
      OccursInPrefix(x + d, rest, d, j);
    }
    FindUnique(t, d, Some(|x|));
  }

  /** A cleanly cut piece holds no delimiter. */
  lemma CleanPieceFree(x: string, d: string)
    requires |d| > 0 && CleanBefore(x, d)
    ensures Find(x, d).None?
  {
    forall j: nat | OccursAt(x, d, j) ensures false {
      OccursInPrefix(x, d, d, j);
    }
    FindUnique(x, d, None);
  }

  /** Splitting joined pieces on the joining delimiter gives the pieces back
      when every piece is cut cleanly. */
  lemma {:induction false} ExplodeImplode(d: string, xs: seq<string>)
    requires |d| > 0 && |xs| >= 1
    requires forall k :: 0 <= k < |xs| ==> CleanBefore(xs[k], d)
    ensures Explode(d, Implode(d, xs)) == xs
  {
    var x := xs[0];
    if |xs| == 1 {
      CleanPieceFree(x, d);
    } else {
      var rest := Implode(d, xs[1..]);
      var t := x + d + rest;
      FindAfterClean(x, d, rest);
      assert t[..|x|] == x;
      assert t[|x| + |d|..] == rest;
      assert Explode(d, t) == [x] + Explode(d, rest);
      ExplodeImplode(d, xs[1..]);
      assert xs == [x] + xs[1..];
    }
  }

  predicate Distinct(xs: seq<string>) {
    forall i, j :: 0 <= i < j < |xs| ==> xs[i] != xs[j]
  }

  /** `array_unique($xs)`: the first occurrence of each string, in order. */
  function Unique(xs: seq<string>): (r: seq<string>)
    ensures Distinct(r)
    ensures forall x :: x in r <==> x in xs
    ensures |r| <= |xs|
  {
    if xs == [] then []
    else
      var p := Unique(xs[..|xs| - 1]);
      var x := xs[|xs| - 1];
      assert xs == xs[..|xs| - 1] + [x];
      if x in p then p else p + [x]
  }

  /** Position of the first occurrence of `x` in `xs`. */
  function FirstIndex(xs: seq<string>, x: string): (i: nat)
    requires x in xs
    ensures i < |xs| && xs[i] == x
    ensures forall j :: 0 <= j < i ==> xs[j] != x
  {
    if xs[0] == x then 0 else 1 + FirstIndex(xs[1..], x)
  }

  lemma FirstIndexPrefix(xs: seq<string>, ys: seq<string>, x: string)
    requires x in xs
    ensures FirstIndex(xs + ys, x) == FirstIndex(xs, x)
  {
    var i := FirstIndex(xs, x);
    var k := FirstIndex(xs + ys, x);
    assert (xs + ys)[i] == x;
  }

  /** `array_unique` keeps the survivors in the order of their first
      occurrences. */
  lemma {:induction false} UniqueFirstOccurrenceOrder(xs: seq<string>)
    ensures forall i, j :: 0 <= i < j < |Unique(xs)| ==>
      FirstIndex(xs, Unique(xs)[i]) < FirstIndex(xs, Unique(xs)[j])
  {
    if xs != [] {
      var ys := xs[..|xs| - 1];
      var x := xs[|xs| - 1];
      var p := Unique(ys);
      assert xs == ys + [x];
      UniqueFirstOccurrenceOrder(ys);
      forall y | y in ys ensures FirstIndex(xs, y) == FirstIndex(ys, y) {
        FirstIndexPrefix(ys, [x], y);
      }
      if x !in p {
        assert FirstIndex(xs, x) == |ys|;
      }
    }
  }

  /** `array_unique` is the identity on strings without repeats. */
  lemma {:induction false} UniqueOfDistinct(xs: seq<string>)
    requires Distinct(xs)
    ensures Unique(xs) == xs
  {
    if xs != [] {
      var ys := xs[..|xs| - 1];
      UniqueOfDistinct(ys);
      assert xs[|xs| - 1] !in ys;
      assert xs == ys + [xs[|xs| - 1]];
    }
  }

  /** `Multibyte::substr($s, $start, $length)`: drop `start` characters,
      then keep at most `length` of the rest (none when `length` is
      negative). */
  function Substr(s: string, start: nat, length: int): (r: string)
    ensures start <= |s| && 0 <= length <= |s| - start ==> r == s[start..start + length]
    ensures start <= |s| && length > |s| - start ==> r == s[start..]
    ensures start > |s| || length < 0 ==> r == []
  {
    var rest := if start <= |s| then s[start..] else [];
    if length < 0 then []
    else if |rest| < length then rest
    else rest[..length]
  }
}
