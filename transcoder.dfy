/** `__serialize` and `__unserialize`: the format dispatch and the custom
    sprintf-template format. */
module Transcoder {
  import opened PhpValues
  import opened PhpStrings
  import opened Settings

  /** The library codecs behind the formats 'php' and 'json': PHP's
      `serialize`, `unserialize`, `json_encode` (None stands for its
      `false`) and `json_decode($text, true)`. They are not modelled. */
  datatype Codecs = Codecs(
    serialize: Value -> string,
    unserialize: string -> Value,
    jsonEncode: Value -> Option<string>,
    jsonDecode: string -> Value)

  datatype Format = PhpFormat | JsonFormat | Template(template: string)

  /** The `switch` on `format`: exactly "php" and "json" pick the library
      codecs; every other string is a custom template. */
  function FormatOf(format: string): (f: Format)
    ensures f == PhpFormat <==> format == "php"
    ensures f == JsonFormat <==> format == "json"
    ensures f.Template? <==> format != "php" && format != "json"
    ensures f.Template? ==> f.template == format
  {
    if format == "php" then PhpFormat
    else if format == "json" then JsonFormat
    else Template(format)
  }

  const Placeholder := "%s"

  /** A template whose only `%` directive is a single `%s`, or which has no
      directive at all. */
  predicate SingleDirective(format: string) {
    match Find(format, Placeholder)
    case None => '%' !in format
    case Some(p) => '%' !in format[..p] && '%' !in format[p + 2..]
  }

  /** `sprintf($format, $arg)` for such a template. */
  function Sprintf(format: string, arg: string): string
    requires SingleDirective(format)
  {
    match Find(format, Placeholder)
    case None => format
    case Some(p) => format[..p] + arg + format[p + 2..]
  }

  /** What the custom template needs to encode: a single `%s` directive,
      and a split delimiter that `explode` accepts. */
  predicate EncodeReady(s: Settings) {
    FormatOf(s.format).Template? ==>
      SingleDirective(s.format) && |SplitDelimiter(s.delimiter)| > 0
  }

  /** A string that PHP 5/7 reads as (the start of) a number. */
  predicate NumericLead(format: string) {
    |format| > 0 && format[0] in "0123456789+-. \t\n\r\U{0B}\U{0C}"
  }

  /** What the custom template needs to decode: a format that arithmetic
      reads as 0, and a join delimiter that `explode` accepts. */
  predicate DecodeReady(s: Settings) {
    FormatOf(s.format).Template? ==>
      !NumericLead(s.format) && |JoinDelimiter(s.delimiter)| > 0
  }

  /** The strings before trimming: the array's values, or a string cut on
      the split delimiter. */
  function Pieces(v: Value, s: Settings): seq<string>
    requires |SplitDelimiter(s.delimiter)| > 0
  {
    if v.Arr? then ValueTexts(v.entries) else Explode(SplitDelimiter(s.delimiter), ScalarText(v))
  }

  /** The strings the template joins: every piece trimmed, and with
      repeats dropped (first occurrences kept, in order) when `unique` is
      set. */
  function Elements(v: Value, s: Settings): seq<string>
    requires |SplitDelimiter(s.delimiter)| > 0
  {
    var trimmed := TrimAll(Pieces(v, s));
    if s.unique then Unique(trimmed) else trimmed
  }

  /** The joined strings are trimmed; with `unique` they are distinct and
      are exactly the trimmed pieces, otherwise they are all the trimmed
      pieces, one per array value. */
  lemma ElementsSpec(v: Value, s: Settings)
    requires |SplitDelimiter(s.delimiter)| > 0
    ensures forall i :: 0 <= i < |Elements(v, s)| ==> Trimmed(Elements(v, s)[i])
    ensures s.unique ==> Distinct(Elements(v, s))
    ensures s.unique ==> forall x :: x in Elements(v, s) <==> x in TrimAll(Pieces(v, s))
    ensures !s.unique ==> Elements(v, s) == TrimAll(Pieces(v, s))
    ensures v.Arr? && !s.unique ==> |Elements(v, s)| == |v.entries|
  {
    var trimmed := TrimAll(Pieces(v, s));
    if s.unique {
      UniqueKeepsTrimmed(trimmed);
    }
  }

  lemma UniqueKeepsTrimmed(ts: seq<string>)
    requires forall i :: 0 <= i < |ts| ==> Trimmed(ts[i])
    ensures forall i :: 0 <= i < |Unique(ts)| ==> Trimmed(Unique(ts)[i])
  {
    var u := Unique(ts);
    forall i | 0 <= i < |u| ensures Trimmed(u[i]) {
      assert u[i] in ts;
      var j :| 0 <= j < |ts| && ts[j] == u[i];
    }
  }

  /** Pieces that are already trimmed and distinct pass through unchanged. */
  lemma ElementsOfCleanPieces(v: Value, s: Settings)
    requires |SplitDelimiter(s.delimiter)| > 0
    requires TrimAll(Pieces(v, s)) == Pieces(v, s) && Unique(Pieces(v, s)) == Pieces(v, s)
    ensures Elements(v, s) == Pieces(v, s)
  {
  }

  /** A list of strings that are already trimmed and distinct passes
      through unchanged. */
  lemma ElementsOfCleanList(xs: seq<string>, s: Settings)
    requires |SplitDelimiter(s.delimiter)| > 0
    requires TrimAll(xs) == xs && Unique(xs) == xs
    ensures Elements(ListOf(xs), s) == xs
  {
    ListTexts(xs);
    ElementsOfCleanPieces(ListOf(xs), s);
  }

  /** The custom branch of `__serialize`. */
  function CustomEncode(v: Value, s: Settings): string
    requires SingleDirective(s.format) && |SplitDelimiter(s.delimiter)| > 0
  {
    Sprintf(s.format, Implode(JoinDelimiter(s.delimiter), Elements(v, s)))
  }

  /** With `%s` at `pos`, the rendering is the text before `%s`, the joined
      elements, then the text after `%s`. */
  lemma CustomEncodeShape(v: Value, s: Settings, pos: nat)
    requires SingleDirective(s.format) && |SplitDelimiter(s.delimiter)| > 0
    requires Find(s.format, Placeholder) == Some(pos)
    ensures CustomEncode(v, s) == s.format[..pos] + Implode(JoinDelimiter(s.delimiter), Elements(v, s)) + s.format[pos + 2..]
  {
  }

  /** The number PHP 5/7 arithmetic reads from a non-numeric string. */
  function NumericValue(format: string): int
    requires !NumericLead(format)
  {
    0
  }

  /** How many trailing characters the decoder cuts for a `%s` at `pos`:
      the length of the decimal text of `-(pos + 2)`, less one. */
  function Dropped(pos: nat): nat {
    |NatText(pos + 2)|
  }

  /** The text `__unserialize` splits: when the format holds `%s` at `pos`,
      `len` is the length of the text of `format - pos - 2` and the text
      kept is `substr(data, pos, strlen(data) - pos - len + 1)`, so the
      first `pos` and the last `Dropped(pos)` characters go. */
  function Inner(format: string, data: string): (r: string)
    requires !NumericLead(format)
    ensures Find(format, Placeholder).None? ==> r == data
    ensures forall pos :: Find(format, Placeholder) == Some(pos) && pos + Dropped(pos) <= |data| ==>
      r == data[pos..|data| - Dropped(pos)]
    ensures forall pos :: Find(format, Placeholder) == Some(pos) && pos + Dropped(pos) > |data| ==>
      r == ""
  {
    match Find(format, Placeholder)
    case None => data
    case Some(pos) =>
      var len := |IntText(NumericValue(format) - pos - 2)|;
      assert len == Dropped(pos) + 1;
      Substr(data, pos, |data| - pos - len + 1)
  }

  /** The custom branch of `__unserialize`: the inner text cut on the JOIN
      delimiter, each piece trimmed; repeats are kept. */
  function CustomDecode(data: string, s: Settings): (r: Value)
    requires !NumericLead(s.format) && |JoinDelimiter(s.delimiter)| > 0
    ensures r.Arr? && |r.entries| >= 1
    ensures forall i :: 0 <= i < |r.entries| ==>
      r.entries[i].key == IntKey(i) && r.entries[i].val.Str? && Trimmed(r.entries[i].val.s)
  {
    ListOf(TrimAll(Explode(JoinDelimiter(s.delimiter), Inner(s.format, data))))
  }

  /** `__serialize`. */
  function Encode(v: Value, s: Settings, c: Codecs): (r: Value)
    requires EncodeReady(s)
    ensures r.Str? || (s.format == "json" && r == Bool(false))
  {
    match FormatOf(s.format)
    case PhpFormat => Str(c.serialize(v))
    case JsonFormat => (match c.jsonEncode(v) case Some(t) => Str(t) case None => Bool(false))
    case Template(_) => Str(CustomEncode(v, s))
  }

  /** `__unserialize`. */
  function Decode(text: string, s: Settings, c: Codecs): Value
    requires DecodeReady(s)
  {
    match FormatOf(s.format)
    case PhpFormat => c.unserialize(text)
    case JsonFormat => c.jsonDecode(text)
    case Template(_) => CustomDecode(text, s)
  }

  /** Exactly "php" and "json" reach the library codecs, in both
      directions; every other format takes the custom template. */
  lemma FormatDispatch(v: Value, text: string, s: Settings, c: Codecs)
    requires EncodeReady(s) && DecodeReady(s)
    ensures s.format == "php" ==> Encode(v, s, c) == Str(c.serialize(v)) && Decode(text, s, c) == c.unserialize(text)
    ensures s.format == "json" ==> Decode(text, s, c) == c.jsonDecode(text)
    ensures s.format == "json" && c.jsonEncode(v).Some? ==> Encode(v, s, c) == Str(c.jsonEncode(v).value)
    ensures s.format != "php" && s.format != "json" ==>
      Encode(v, s, c) == Str(CustomEncode(v, s)) && Decode(text, s, c) == CustomDecode(text, s)
  {
    var f := FormatOf(s.format);
    if f == PhpFormat {
      assert s.format == "php";
    } else if f == JsonFormat {
      assert s.format == "json";
    } else {
      assert s.format != "php" && s.format != "json";
    }
  }

  /** For a `%s` among the first eight characters the decoder cuts exactly
      one trailing character. */
  lemma DroppedOne(pos: nat)
    requires pos <= 7
    ensures Dropped(pos) == 1
  {
  }

  /** For a `%s` at position 8 or later the decoder cuts at least two
      trailing characters. */
  lemma DroppedMore(pos: nat)
    requires pos >= 8
    ensures Dropped(pos) >= 2
  {
    NatTextLength(pos + 2);
  }

  /** Decoding through the bare template "%s" loses the last character of
      the stored text. */
  lemma BarePlaceholderLosesLast(data: string, s: Settings)
    requires s.format == "%s" && |data| >= 1
    requires |JoinDelimiter(s.delimiter)| > 0
    ensures Inner(s.format, data) == data[..|data| - 1]
    ensures CustomDecode(data, s) == ListOf(TrimAll(Explode(JoinDelimiter(s.delimiter), data[..|data| - 1])))
  {
    assert OccursAt(s.format, Placeholder, 0);
    FindUnique(s.format, Placeholder, Some(0));
  }

  /** Custom round trip: when the text after `%s` is exactly as long as the
      decoder's cut, the joined text is non-empty and every element is cut
      cleanly by the join delimiter, decoding the rendering gives back the
      encoded elements (trimmed, and without repeats when `unique`). */
  lemma CustomRoundTrip(v: Value, s: Settings, pos: nat)
    requires SingleDirective(s.format) && !NumericLead(s.format)
    requires |SplitDelimiter(s.delimiter)| > 0 && |JoinDelimiter(s.delimiter)| > 0
    requires Find(s.format, Placeholder) == Some(pos)
    requires |s.format| - pos - 2 == Dropped(pos)
    requires |Elements(v, s)| >= 1
    requires forall k :: 0 <= k < |Elements(v, s)| ==> CleanBefore(Elements(v, s)[k], JoinDelimiter(s.delimiter))
    ensures CustomDecode(CustomEncode(v, s), s) == ListOf(Elements(v, s))
  {
    var d := JoinDelimiter(s.delimiter);
    var xs := Elements(v, s);
    RenderedInner(v, s, pos);
    ExplodeImplode(d, xs);
    ElementsSpec(v, s);
    TrimAllTrimmed(xs);
  }

  /** The decoder never drops repeats: with `unique` off, an array comes
      back with as many elements as it had, repeated values included. */
  lemma NonUniqueRoundTripCount(v: Value, s: Settings, pos: nat)
    requires SingleDirective(s.format) && !NumericLead(s.format)
    requires |SplitDelimiter(s.delimiter)| > 0 && |JoinDelimiter(s.delimiter)| > 0
    requires Find(s.format, Placeholder) == Some(pos)
    requires |s.format| - pos - 2 == Dropped(pos)
    requires v.Arr? && !s.unique && |v.entries| >= 1
    requires forall k :: 0 <= k < |Elements(v, s)| ==> CleanBefore(Elements(v, s)[k], JoinDelimiter(s.delimiter))
    ensures |CustomDecode(CustomEncode(v, s), s).entries| == |v.entries|
  {
    ElementsSpec(v, s);
    CustomRoundTrip(v, s, pos);
  }

  /** The decoder's cut recovers exactly the joined elements from a
      rendering whose text after `%s` is as long as the cut. */
  lemma RenderedInner(v: Value, s: Settings, pos: nat)
    requires SingleDirective(s.format) && !NumericLead(s.format)
    requires |SplitDelimiter(s.delimiter)| > 0
    requires Find(s.format, Placeholder) == Some(pos)
    requires |s.format| - pos - 2 == Dropped(pos)
    ensures Inner(s.format, CustomEncode(v, s)) == Implode(JoinDelimiter(s.delimiter), Elements(v, s))
  {
    var joined := Implode(JoinDelimiter(s.delimiter), Elements(v, s));
    var text := CustomEncode(v, s);
    CustomEncodeShape(v, s, pos);
    assert |s.format[..pos]| == pos && |s.format[pos + 2..]| == Dropped(pos);
    assert text[pos..|text| - Dropped(pos)] == joined;
  }

  /** An empty array encodes to the bare template, which decodes to one
      empty string rather than to an empty array. */
  lemma EmptyArrayDecodesToEmptyString(s: Settings, pos: nat)
    requires SingleDirective(s.format) && !NumericLead(s.format)
    requires |SplitDelimiter(s.delimiter)| > 0 && |JoinDelimiter(s.delimiter)| > 0
    requires Find(s.format, Placeholder) == Some(pos)
    requires |s.format| - pos - 2 == Dropped(pos)
    ensures CustomEncode(Arr([]), s) == s.format[..pos] + s.format[pos + 2..]
    ensures CustomDecode(CustomEncode(Arr([]), s), s) == ListOf([""])
  {
    var xs := Elements(Arr([]), s);
    assert xs == [];
    CustomEncodeShape(Arr([]), s, pos);
    var text := CustomEncode(Arr([]), s);
    assert text[pos..|text| - Dropped(pos)] == "";
    assert Find("", JoinDelimiter(s.delimiter)).None?;
    assert TrimAll([""]) == [""];
  }
}

module TranscoderExamples {
  import opened PhpValues
  import opened PhpStrings
  import opened Settings
  import opened Transcoder

  /** A one-character string other than the delimiter is cut cleanly by
      a one-character delimiter. */
  lemma CleanSingle(x: string, d: string)
    requires |x| == 1 && |d| == 1 && x != d
    ensures CleanBefore(x, d)
  {
    assert !OccursAt(x + d, d, 0);
    assert OccursAt(x + d, d, 1);
    FindUnique(x + d, d, Some(1));
  }

  /** Settings of the documented example: format `|%s|` and delimiter `-`,
      both spelled out character by character. */
  predicate PipeSettings(s: Settings) {
    |s.format| == 4 && s.format[0] == '|' && s.format[1] == '%' && s.format[2] == 's' && s.format[3] == '|'
    && s.delimiter.Single? && |s.delimiter.d| == 1 && s.delimiter.d[0] == '-'
  }

  /** In `|%s|` the placeholder stands at position 1 and is the only
      directive. */
  lemma PipeTemplate(f: string)
    requires |f| == 4 && f[0] == '|' && f[1] == '%' && f[2] == 's' && f[3] == '|'
    ensures Find(f, Placeholder) == Some(1)
    ensures SingleDirective(f) && !NumericLead(f)
    ensures f[..1] == "|" && f[3..] == "|"
  {
    assert !OccursAt(f, Placeholder, 0);
    assert f[1..3] == Placeholder;
    FindUnique(f, Placeholder, Some(1));
  }

  /** The data of the documented example, ['x', 'y', 'z'], spelled out
      character by character. */
  predicate Xyz(xs: seq<string>) {
    |xs| == 3 && |xs[0]| == 1 && |xs[1]| == 1 && |xs[2]| == 1
    && xs[0][0] == 'x' && xs[1][0] == 'y' && xs[2][0] == 'z'
  }

  /** A single character that `trim` keeps is left alone by `trim`. */
  lemma PlainLetter(x: string)
    requires |x| == 1 && x[0] !in TrimChars
    ensures Trim(x) == x
  {
    assert Trimmed(x);
    TrimFixpoint(x);
  }

  lemma XyzTrimmed(xs: seq<string>)
    requires Xyz(xs)
    ensures TrimAll(xs) == xs
  {
    PlainLetter(xs[0]);
    PlainLetter(xs[1]);
    PlainLetter(xs[2]);
    assert TrimAll(xs) == xs;
  }

  lemma XyzDistinct(xs: seq<string>)
    requires Xyz(xs)
    ensures Unique(xs) == xs
  {
    assert Distinct(xs);
    UniqueOfDistinct(xs);
  }

  lemma XyzCutCleanly(xs: seq<string>, d: string)
    requires Xyz(xs) && |d| == 1 && d[0] == '-'
    ensures forall k :: 0 <= k < |xs| ==> CleanBefore(xs[k], d)
  {
    CleanSingle(xs[0], d);
    CleanSingle(xs[1], d);
    CleanSingle(xs[2], d);
  }

  /** A list the template renders and the decoder cuts back without loss:
      non-empty, already trimmed, without repeats, every element cut
      cleanly by `d`. */
  predicate CleanList(xs: seq<string>, d: string) {
    |xs| >= 1 && TrimAll(xs) == xs && Unique(xs) == xs
    && forall k :: 0 <= k < |xs| ==> CleanBefore(xs[k], d)
  }

  lemma XyzClean(xs: seq<string>, d: string)
    requires Xyz(xs) && |d| == 1 && d[0] == '-'
    ensures CleanList(xs, d)
  {
    XyzTrimmed(xs);
    XyzDistinct(xs);
    XyzCutCleanly(xs, d);
  }

  lemma PipeJoin(xs: seq<string>, d: string)
    requires |xs| == 3
    ensures Implode(d, xs) == xs[0] + d + xs[1] + d + xs[2]
  {
    var tail := xs[1..];
    assert tail == [xs[1], xs[2]];
    assert tail[1..] == [xs[2]];
    assert Implode(d, tail[1..]) == xs[2];
    assert Implode(d, tail) == xs[1] + d + xs[2];
  }

  /** The encoding half of the documented example. */
  lemma DocumentedEncode(s: Settings, xs: seq<string>)
    requires PipeSettings(s) && Xyz(xs)
    ensures SingleDirective(s.format) && !NumericLead(s.format)
    ensures CustomEncode(ListOf(xs), s) == "|" + xs[0] + s.delimiter.d + xs[1] + s.delimiter.d + xs[2] + "|"
  {
    var d := s.delimiter.d;
    XyzClean(xs, d);
    PipeRendering(s, xs);
    PipeTemplate(s.format);
    PipeJoin(xs, d);
    Regroup(CustomEncode(ListOf(xs), s), s.format[..1], Implode(d, xs), s.format[3..], "|", xs[0], d, xs[1], xs[2]);
  }

  /** `|%s|` renders a clean list as `|`, the joined list, then `|`. */
  lemma PipeRendering(s: Settings, xs: seq<string>)
    requires PipeSettings(s) && CleanList(xs, s.delimiter.d)
    ensures SingleDirective(s.format)
    ensures CustomEncode(ListOf(xs), s) == s.format[..1] + Implode(s.delimiter.d, xs) + s.format[3..]
  {
    PipeTemplate(s.format);
    ElementsOfCleanList(xs, s);
    CustomEncodeShape(ListOf(xs), s, 1);
  }

  lemma Regroup(t: string, a: string, j: string, c: string, b: string, x: string, d: string, y: string, z: string)
    requires t == a + j + c && a == b && c == b && j == x + d + y + d + z
    ensures t == b + x + d + y + d + z + b
  {
  }

  /** The documented example: with format `|%s|` and delimiter `-`, the
      data ['x', 'y', 'z'] renders as `|x-y-z|`, which decodes back. */
  lemma DocumentedExample(s: Settings, xs: seq<string>, text: string)
    requires PipeSettings(s) && Xyz(xs)
    requires text == "|" + xs[0] + s.delimiter.d + xs[1] + s.delimiter.d + xs[2] + "|"
    ensures SingleDirective(s.format) && !NumericLead(s.format)
    ensures CustomEncode(ListOf(xs), s) == text
    ensures CustomDecode(text, s) == ListOf(xs)
  {
    DocumentedEncode(s, xs);
    XyzClean(xs, s.delimiter.d);
    PipeRoundTrip(s, xs);
  }

  /** Decoding the `|%s|` rendering of a clean list gives the list back. */
  lemma PipeRoundTrip(s: Settings, xs: seq<string>)
    requires PipeSettings(s) && CleanList(xs, s.delimiter.d)
    ensures SingleDirective(s.format) && !NumericLead(s.format)
    ensures CustomDecode(CustomEncode(ListOf(xs), s), s) == ListOf(xs)
  {
    PipeTemplate(s.format);
    ElementsOfCleanList(xs, s);
    assert JoinDelimiter(s.delimiter) == s.delimiter.d;
    DroppedOne(1);
    CustomRoundTrip(ListOf(xs), s, 1);
  }
}
