/** PHP values as the behaviour sees them: scalars and ordered arrays whose
    entries are (key, value) pairs kept in insertion order. */
module PhpValues {

  datatype Option<T> = None | Some(value: T)

  /** An array key: PHP arrays are keyed by integers or strings. */
  datatype Key = IntKey(i: int) | StrKey(s: string)

  datatype Value =
    | Null
    | Bool(b: bool)
    | Int(n: int)
    | Str(s: string)
    | Arr(entries: seq<Entry>)

  datatype Entry = Entry(key: Key, val: Value)

  /** PHP's `empty()`: null, false, 0, "", "0" and the empty array. */
  predicate PhpEmpty(v: Value) {
    match v
    case Null => true
    case Bool(b) => !b
    case Int(n) => n == 0
    case Str(s) => s == "" || s == "0"
    case Arr(es) => es == []
  }

  /** The keys of an array, in order (PHP's `array_keys`). */
  function Keys(es: seq<Entry>): (ks: seq<Key>)
    ensures |ks| == |es|
    ensures forall i :: 0 <= i < |es| ==> ks[i] == es[i].key
  {
    if es == [] then [] else [es[0].key] + Keys(es[1..])
  }

  /** A well-formed PHP array never holds the same key twice. */
  predicate DistinctKeys(es: seq<Entry>) {
    forall i, j :: 0 <= i < j < |es| ==> es[i].key != es[j].key
  }

  /** Position of key `k` in `es`, or `|es|` when it is absent. */
  function KeyIndex(es: seq<Entry>, k: Key): (i: nat)
    ensures i <= |es|
    ensures i < |es| ==> es[i].key == k
    ensures forall j :: 0 <= j < i ==> es[j].key != k
  {
    if es == [] then 0
    else if es[0].key == k then 0
    else 1 + KeyIndex(es[1..], k)
  }

  /** `$a[$k]` when `array_key_exists($k, $a)`, otherwise None. */
  function Lookup(es: seq<Entry>, k: Key): (r: Option<Value>)
    ensures r.Some? <==> k in Keys(es)
  {
    var i := KeyIndex(es, k);
    if i < |es| then Some(es[i].val) else None
  }

  /** `$a[$k] = $v`: overwrite the entry in place, or append a new one. */
  function Assign(es: seq<Entry>, k: Key, v: Value): (r: seq<Entry>)
    ensures Lookup(r, k) == Some(v)
    ensures forall k' :: k' != k ==> Lookup(r, k') == Lookup(es, k')
    ensures Keys(r) == if k in Keys(es) then Keys(es) else Keys(es) + [k]
  {
    var i := KeyIndex(es, k);
    if i < |es| then
      OverwriteAt(es, i, k, v);
      es[i := Entry(k, v)]
    else
      AppendNew(es, k, v);
      es + [Entry(k, v)]
  }

  lemma OverwriteAt(es: seq<Entry>, i: nat, k: Key, v: Value)
    requires i == KeyIndex(es, k) && i < |es|
    ensures Lookup(es[i := Entry(k, v)], k) == Some(v)
    ensures forall k' :: k' != k ==> Lookup(es[i := Entry(k, v)], k') == Lookup(es, k')
    ensures k in Keys(es) && Keys(es[i := Entry(k, v)]) == Keys(es)
  {
    var r := es[i := Entry(k, v)];
    forall k' | k' != k ensures Lookup(r, k') == Lookup(es, k') {
      OverwriteOther(es, i, Entry(k, v), k');
    }
    KeyIndexUnique(r, k, i);
    assert Keys(es)[i] == k;
  }

  lemma OverwriteOther(es: seq<Entry>, i: nat, e: Entry, k: Key)
    requires i < |es| && es[i].key == e.key && e.key != k
    ensures KeyIndex(es[i := e], k) == KeyIndex(es, k)
  {
    KeyIndexUnique(es[i := e], k, KeyIndex(es, k));
  }

  lemma AppendNew(es: seq<Entry>, k: Key, v: Value)
    requires KeyIndex(es, k) == |es|
    ensures Lookup(es + [Entry(k, v)], k) == Some(v)
    ensures forall k' :: k' != k ==> Lookup(es + [Entry(k, v)], k') == Lookup(es, k')
    ensures k !in Keys(es) && Keys(es + [Entry(k, v)]) == Keys(es) + [k]
  {
    AppendLookup(es, Entry(k, v));
    AppendKeys(es, Entry(k, v));
  }

  lemma AppendLookup(es: seq<Entry>, e: Entry)
    requires KeyIndex(es, e.key) == |es|
    ensures Lookup(es + [e], e.key) == Some(e.val)
    ensures forall k' :: k' != e.key ==> Lookup(es + [e], k') == Lookup(es, k')
  {
    forall k' | k' != e.key ensures Lookup(es + [e], k') == Lookup(es, k') {
      KeyIndexAppend(es, e, k');
    }
    KeyIndexUnique(es + [e], e.key, |es|);
  }

  lemma AppendKeys(es: seq<Entry>, e: Entry)
    requires KeyIndex(es, e.key) == |es|
    ensures e.key !in Keys(es) && Keys(es + [e]) == Keys(es) + [e.key]
  {
  }

  lemma KeyIndexAppend(es: seq<Entry>, e: Entry, k: Key)
    requires e.key != k
    ensures KeyIndex(es + [e], k) == if KeyIndex(es, k) < |es| then KeyIndex(es, k) else |es| + 1
  {
    var j := KeyIndex(es, k);
    KeyIndexUnique(es + [e], k, if j < |es| then j else |es| + 1);
  }

  /** KeyIndex is determined by its contract. */
  lemma KeyIndexUnique(es: seq<Entry>, k: Key, i: nat)
    requires i <= |es|
    requires i < |es| ==> es[i].key == k
    requires forall j :: 0 <= j < i ==> es[j].key != k
    ensures KeyIndex(es, k) == i
  {
  }

  /** In a well-formed array, assigning to the key at position `i`
      replaces that entry and nothing else. */
  lemma AssignAt(es: seq<Entry>, i: nat, v: Value)
    requires DistinctKeys(es) && i < |es|
    ensures Assign(es, es[i].key, v) == es[i := Entry(es[i].key, v)]
  {
    KeyIndexUnique(es, es[i].key, i);
  }

  /** Two arrays with the same key sequence are equally well formed. */
  lemma DistinctKeysOfSameKeys(es: seq<Entry>, other: seq<Entry>)
    requires Keys(es) == Keys(other) && DistinctKeys(other)
    ensures DistinctKeys(es)
  {
    forall i, j | 0 <= i < j < |es| ensures es[i].key != es[j].key {
      assert Keys(es)[i] == other[i].key && Keys(es)[j] == other[j].key;
    }
  }

  /** `es` with the values of its first `i` entries replaced by the
      matching `vals`, keys and order kept: the state of a `foreach` that
      rewrites `$a[$key]` entry by entry, after `i` passes. */
  function UpdatedUpTo(es: seq<Entry>, vals: seq<Value>, i: nat): (r: seq<Entry>)
    requires |vals| == |es| && i <= |es|
    ensures |r| == |es| && Keys(r) == Keys(es)
  {
    var r := seq(|es|, k requires 0 <= k < |es| => if k < i then Entry(es[k].key, vals[k]) else es[k]);
    assert forall k :: 0 <= k < |es| ==> Keys(r)[k] == Keys(es)[k];
    r
  }

  /** Entry `k` of that state: rewritten when `k < i`, untouched after. */
  lemma UpdatedAt(es: seq<Entry>, vals: seq<Value>, i: nat, k: nat)
    requires |vals| == |es| && i <= |es| && k < |es|
    ensures UpdatedUpTo(es, vals, i)[k] == if k < i then Entry(es[k].key, vals[k]) else es[k]
  {
  }

  /** One more pass of such a loop over a well-formed array writes the next
      entry in place. */
  lemma UpdateStep(es: seq<Entry>, vals: seq<Value>, j: nat, i: nat)
    requires DistinctKeys(es) && |vals| == |es| && 0 < i <= |es| && j == i - 1
    ensures Assign(UpdatedUpTo(es, vals, j), es[j].key, vals[j]) == UpdatedUpTo(es, vals, i)
  {
    var cur := UpdatedUpTo(es, vals, j);
    var next := UpdatedUpTo(es, vals, i);
    DistinctKeysOfSameKeys(cur, es);
    AssignAt(cur, j, vals[j]);
    forall k | 0 <= k < |es| ensures cur[j := Entry(es[j].key, vals[j])][k] == next[k] {
      UpdatedAt(es, vals, j, k);
      UpdatedAt(es, vals, i, k);
    }
  }

  /** `foreach ($a as $key => $x) { $a[$key] = ...; }` after `i` passes,
      where pass `k` writes `vals[k]` under the key of entry `k`. */
  function AssignEach(es: seq<Entry>, vals: seq<Value>, i: nat): (r: seq<Entry>)
    requires |vals| == |es| && i <= |es|
    ensures Keys(r) == Keys(es)
  {
    if i == 0 then es
    else
      var prev := AssignEach(es, vals, i - 1);
      assert Keys(prev)[i - 1] == es[i - 1].key;
      Assign(prev, es[i - 1].key, vals[i - 1])
  }

  /** One more pass of such a loop. */
  lemma AssignEachNext(es: seq<Entry>, vals: seq<Value>, i: nat, cur: seq<Entry>, v: Value)
    requires |vals| == |es| && i < |es|
    requires cur == AssignEach(es, vals, i) && v == vals[i]
    ensures Assign(cur, es[i].key, v) == AssignEach(es, vals, i + 1)
  {
  }

  /** Over a well-formed array such a loop rewrites every entry in place:
      same keys, same order, same count, the new values in order. */
  lemma {:induction false} AssignEachInPlace(es: seq<Entry>, vals: seq<Value>, i: nat)
    requires DistinctKeys(es) && |vals| == |es| && i <= |es|
    ensures AssignEach(es, vals, i) == UpdatedUpTo(es, vals, i)
  {
    if i == 0 {
      UpdatedNone(es, vals);
    } else {
      var j: nat := i - 1;
      AssignEachInPlace(es, vals, j);
      InPlaceStep(es, vals, j, i);
    }
  }

  lemma UpdatedNone(es: seq<Entry>, vals: seq<Value>)
    requires |vals| == |es|
    ensures UpdatedUpTo(es, vals, 0) == es
  {
    forall k | 0 <= k < |es| ensures UpdatedUpTo(es, vals, 0)[k] == es[k] {
      UpdatedAt(es, vals, 0, k);
    }
  }

  lemma InPlaceStep(es: seq<Entry>, vals: seq<Value>, j: nat, i: nat)
    requires DistinctKeys(es) && |vals| == |es| && 0 < i <= |es| && j == i - 1
    requires AssignEach(es, vals, j) == UpdatedUpTo(es, vals, j)
    ensures AssignEach(es, vals, i) == UpdatedUpTo(es, vals, i)
  {
    AssignEachStep(es, vals, j, i);
    UpdateStep(es, vals, j, i);
  }

  lemma AssignEachStep(es: seq<Entry>, vals: seq<Value>, j: nat, i: nat)
    requires |vals| == |es| && 0 < i <= |es| && j == i - 1
    ensures AssignEach(es, vals, i) == Assign(AssignEach(es, vals, j), es[j].key, vals[j])
  {
  }

  /** The whole loop, entry by entry: entry `k` keeps its key and takes
      the `k`-th new value. */
  lemma AssignEachAll(es: seq<Entry>, vals: seq<Value>)
    requires DistinctKeys(es) && |vals| == |es|
    ensures |AssignEach(es, vals, |es|)| == |es|
    ensures forall k :: 0 <= k < |es| ==> AssignEach(es, vals, |es|)[k] == Entry(es[k].key, vals[k])
  {
    AssignEachInPlace(es, vals, |es|);
    forall k | 0 <= k < |es| ensures AssignEach(es, vals, |es|)[k] == Entry(es[k].key, vals[k]) {
      UpdatedAt(es, vals, |es|, k);
    }
  }

  /** Writing back the value a key already holds changes nothing. */
  lemma AssignSame(es: seq<Entry>, k: Key)
    requires Lookup(es, k).Some?
    ensures Assign(es, k, Lookup(es, k).value) == es
  {
  }

  /** A list (keys 0, 1, 2, ...) of strings, as `explode` returns it. */
  function ListOf(xs: seq<string>): (v: Value)
    ensures v.Arr? && |v.entries| == |xs|
    ensures forall i :: 0 <= i < |xs| ==> v.entries[i] == Entry(IntKey(i), Str(xs[i]))
  {
    Arr(seq(|xs|, i requires 0 <= i < |xs| => Entry(IntKey(i), Str(xs[i]))))
  }

  /** The values of a list of strings are those strings. */
  lemma ListTexts(xs: seq<string>)
    ensures ValueTexts(ListOf(xs).entries) == xs
  {
  }

  /** The character for a decimal digit. */
  function DigitChar(d: nat): char
    requires d < 10
  {
    "0123456789"[d]
  }

  function Pow10(k: nat): (p: nat)
    ensures p >= 1
  {
    if k == 0 then 1 else 10 * Pow10(k - 1)
  }

  /** The decimal text of a natural number, as PHP prints it. */
  function NatText(n: nat): (t: string)
    decreases n
  {
    if n < 10 then [DigitChar(n)] else NatText(n / 10) + [DigitChar(n % 10)]
  }

  /** NatText has the fewest digits that hold `n`. */
  lemma {:induction false} NatTextLength(n: nat)
    ensures |NatText(n)| >= 1
    ensures n < Pow10(|NatText(n)|)
    ensures |NatText(n)| == 1 || Pow10(|NatText(n)| - 1) <= n
  {
    if n >= 10 {
      NatTextLength(n / 10);
    }
  }

  /** PHP's conversion of an integer to a string. */
  function IntText(n: int): (t: string)
    ensures n < 0 ==> |t| == |NatText(-n)| + 1 && t[0] == '-'
    ensures n >= 0 ==> t == NatText(n)
  {
    if n < 0 then "-" + NatText(-n) else NatText(n)
  }

  /** The string a scalar converts to (`(string)$v`). An array yields ""
      here because `trim()` answers null for one, and null prints as "". */
  function ScalarText(v: Value): (t: string)
    ensures v.Str? ==> t == v.s
    ensures v.Int? ==> t == IntText(v.n)
    ensures (v.Null? || v.Arr? || v == Bool(false)) ==> t == ""
    ensures v == Bool(true) ==> t == "1"
  {
    match v
    case Null => ""
    case Bool(b) => if b then "1" else ""
    case Int(n) => IntText(n)
    case Str(s) => s
    case Arr(_) => ""
  }

  /** The values of an array, in order, as strings. */
  function ValueTexts(es: seq<Entry>): (ts: seq<string>)
    ensures |ts| == |es|
    ensures forall i :: 0 <= i < |es| ==> ts[i] == ScalarText(es[i].val)
  {
    seq(|es|, i requires 0 <= i < |es| => ScalarText(es[i].val))
  }
}
