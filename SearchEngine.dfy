/** The search engine of the help browser: highlighting (`light_pattern`),
    value matching (`procced_reverse`) and the recursive filter over the nested
    help document (`dive_in`), main.py lines 10-41. */
module SearchEngine {
  import opened Text

  datatype Option<T> = None | Some(value: T)

  /** `Reversative`: match keys only, keys then values, or values only. */
  datatype Reversative = No | Reverse | ForceReverse

  /** A value of the help document: a string, a list of strings or a nested mapping. */
  datatype Value = Str(s: string) | List(items: seq<string>) | Map(entries: Doc)

  /** A JSON object as Python keeps it: key/value pairs in insertion order. */
  type Doc = seq<(string, Value)>

  /** The highlight format `COLOR`, a format string with one `{}` slot, given
      by what it puts before and after the slot. */
  datatype Template = Template(prefix: string, suffix: string) {
    function Format(x: string): string { prefix + x + suffix }
  }

  /** The default `COLOR = "{}"`. */
  const Identity := Template("", "")

  // ---------------------------------------------------------------- light_pattern

  /** `light_pattern`: wrap every occurrence of `key` in `pattern` in the template. */
  function LightPattern(pattern: string, key: string, color: Template): string {
    Replace(pattern, key, color.Format(key))
  }

  lemma LightPatternUnmatched(pattern: string, key: string, color: Template)
    ensures !Contains(pattern, key) ==> LightPattern(pattern, key, color) == pattern
  {
    if !Contains(pattern, key) {
      ReplaceAbsent(pattern, key, color.Format(key));
    }
  }

  lemma LightPatternDefault(pattern: string, key: string)
    ensures LightPattern(pattern, key, Identity) == pattern
  {
    assert Identity.Format(key) == key;
    ReplaceSelf(pattern, key);
  }

  /** Each occurrence that `str.count` sees gains the template's decoration, and
      so the text changes exactly when the key occurs and the template decorates. */
  lemma LightPatternLength(pattern: string, key: string, color: Template)
    ensures |LightPattern(pattern, key, color)|
         == |pattern| + Count(pattern, key) * (|color.prefix| + |color.suffix|)
    ensures |color.prefix| + |color.suffix| > 0 ==>
              (LightPattern(pattern, key, color) == pattern <==> !Contains(pattern, key))
  {
    var m := |color.prefix| + |color.suffix|;
    var c := Count(pattern, key);
    assert |color.Format(key)| - |key| == m;
    ReplaceLength(pattern, key, color.Format(key));
    CountPositiveIffContains(pattern, key);
    LightPatternUnmatched(pattern, key, color);
    if m > 0 && c > 0 {
      MulPositive(c, m);
    }
  }

  lemma MulPositive(a: int, b: int)
    requires a > 0 && b > 0
    ensures a * b > 0
  {
  }

  // ---------------------------------------------------------------- procced_reverse

  /** Python's truth value of a document value: empty strings, lists and mappings are false. */
  predicate Truthy(v: Value) {
    match v
    case Str(s) => s != []
    case List(xs) => xs != []
    case Map(d) => d != []
  }

  /** `procced_reverse`: match `key` against a string or the elements of a list;
      `None` when nothing matches, otherwise the highlighted string, or the whole
      list with every element highlighted. */
  function ProceedReverse(pattern: Value, key: string, color: Template): (r: Option<Value>)
    requires !pattern.Map?
    ensures pattern.Str? ==> (r.None? <==> !Contains(pattern.s, key))
    ensures pattern.List? ==>
              (r.None? <==> forall i :: 0 <= i < |pattern.items| ==> !Contains(pattern.items[i], key))
    ensures pattern.Str? && r.Some? ==> r.value == Str(LightPattern(pattern.s, key, color))
    ensures pattern.List? && r.Some? ==>
              r.value.List? && |r.value.items| == |pattern.items| &&
              forall i :: 0 <= i < |pattern.items| ==>
                r.value.items[i] == LightPattern(pattern.items[i], key, color) &&
                (!Contains(pattern.items[i], key) ==> r.value.items[i] == pattern.items[i])
  {
    match pattern
    case List(xs) =>
      if exists i :: 0 <= i < |xs| && Contains(xs[i], key) then
        Some(List(LightAll(xs, key, color)))
      // Python then tests `key in pattern`, list membership; an element equal to
      // `key` contains it, so that test cannot succeed here.
      else if key in xs then
        assert false; None
      else None
    case Str(s) =>
      if Contains(s, key) then Some(Str(LightPattern(s, key, color))) else None
  }

  /** `list(map(lambda x: light_pattern(x, key), pattern))`. */
  function LightAll(xs: seq<string>, key: string, color: Template): (ys: seq<string>)
    ensures |ys| == |xs|
    ensures forall i :: 0 <= i < |xs| ==>
              ys[i] == LightPattern(xs[i], key, color) &&
              (!Contains(xs[i], key) ==> ys[i] == xs[i])
  {
    if xs == [] then []
    else
      LightPatternUnmatched(xs[0], key, color);
      [LightPattern(xs[0], key, color)] + LightAll(xs[1..], key, color)
  }

  // ---------------------------------------------------------------- Python dict assignment

  function Keys(d: Doc): seq<string> {
    seq(|d|, i requires 0 <= i < |d| => d[i].0)
  }

  /** Keys of a Python dict are unique. */
  predicate UniqueKeys(d: Doc) {
    forall i, j :: 0 <= i < j < |d| ==> d[i].0 != d[j].0
  }

  /** Position of `k` in `d`, or `|d|` when absent. */
  function Find(d: Doc, k: string): (i: nat)
    ensures i <= |d|
    ensures i < |d| ==> d[i].0 == k
    ensures forall j :: 0 <= j < i ==> d[j].0 != k
    decreases |d|
  {
    if d == [] then 0 else if d[0].0 == k then 0 else 1 + Find(d[1..], k)
  }

  /** `d[k] = v` on a Python dict: an existing key keeps its position and takes
      the new value, a new key goes to the end. */
  function Put(d: Doc, k: string, v: Value): (r: Doc)
    requires UniqueKeys(d)
    ensures UniqueKeys(r)
    ensures k in Keys(d) ==> |r| == |d|
    ensures k !in Keys(d) ==> |r| == |d| + 1 && r[|d|] == (k, v)
    ensures forall i :: 0 <= i < |d| ==> r[i] == if d[i].0 == k then (k, v) else d[i]
  {
    var i := Find(d, k);
    if i < |d| then
      assert Keys(d)[i] == k;
      d[i := (k, v)]
    else
      assert forall j :: 0 <= j < |d| ==> Keys(d)[j] != k;
      d + [(k, v)]
  }

  // ---------------------------------------------------------------- dive_in

  /** The rules `dive_in` applies to one key, in their order of precedence:
      a key match copies the value under the highlighted key; otherwise a nested
      mapping is searched and kept when something in it matched; otherwise, in a
      reverse mode, the value itself is matched. */
  function Emit(e: (string, Value), req: string, mode: Reversative, color: Template): (r: Option<(string, Value)>)
    ensures Contains(e.0, req) && mode != ForceReverse ==>
              r == Some((LightPattern(e.0, req, color), e.1))
    ensures !(Contains(e.0, req) && mode != ForceReverse) && r.Some? ==>
              r.value.0 == e.0 && Truthy(r.value.1) && r.value.1.Map? == e.1.Map?
    ensures mode == No && r.Some? && !e.1.Map? ==> r.value.1 == e.1
    decreases e.1, 2
  {
    var (key, v) := e;
    if Contains(key, req) && mode != ForceReverse then
      Some((LightPattern(key, req, color), v))
    else if v.Map? then
      var deep := Dive(v.entries, |v.entries|, req, mode, color);
      if deep != [] then Some((key, Map(deep))) else None
    else if mode == ForceReverse || mode == Reverse then
      var matched := ProceedReverse(v, req, color);
      if matched.Some? && Truthy(matched.value) then Some((key, matched.value)) else None
    else None
  }

  /** The result of `dive_in` once its loop has seen the first `n` keys of `doc`. */
  function Dive(doc: Doc, n: nat, req: string, mode: Reversative, color: Template): (r: Doc)
    requires n <= |doc|
    ensures UniqueKeys(r)
    ensures |r| <= n
    decreases Map(doc), 1, n
  {
    if n == 0 then []
    else
      assert doc[n - 1] in doc;
      var acc := Dive(doc, n - 1, req, mode, color);
      var e := Emit(doc[n - 1], req, mode, color);
      if e.Some? then Put(acc, e.value.0, e.value.1) else acc
  }

  /** What `dive_in(doc, req, mode)` returns. */
  function Search(doc: Doc, req: string, mode: Reversative, color: Template): Doc {
    Dive(doc, |doc|, req, mode, color)
  }

  /** `dive_in`: fill `result` key by key, recursing into nested mappings. */
  method DiveIn(dive: Doc, req: string, reverse: Reversative, color: Template) returns (result: Doc)
    ensures result == Search(dive, req, reverse, color)
    decreases Map(dive)
  {
    result := [];
    for i := 0 to |dive|
      invariant result == Dive(dive, i, req, reverse, color)
    {
      assert dive[i] in dive;
      var (key, v) := dive[i];
      if Contains(key, req) && reverse != ForceReverse {
        var coloredKey := LightPattern(key, req, color);
        result := Put(result, coloredKey, v);
      } else if v.Map? {
        var deep := DiveIn(v.entries, req, reverse, color);
        if deep != [] {
          result := Put(result, key, Map(deep));
        }
      } else if reverse == ForceReverse || reverse == Reverse {
        var matched := ProceedReverse(v, req, color);
        if matched.Some? && Truthy(matched.value) {
          result := Put(result, key, matched.value);
        }
      }
    }
  }
}
