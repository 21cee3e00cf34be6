/** What `dive_in` guarantees: where each result entry comes from, the order it
    keeps, the precedence of a key match, what each `Reversative` mode leaves
    untouched, and that the result is again a well-formed document. */
module SearchFacts {
  import opened Text
  import opened SearchEngine

  // ---------------------------------------------------------------- origins

  /** Every entry of the result is what the per-key rules made of some input entry. */
  lemma {:induction false} EntryOrigin(doc: Doc, n: nat, req: string, mode: Reversative, color: Template)
    requires n <= |doc|
    ensures forall j :: 0 <= j < |Dive(doc, n, req, mode, color)| ==>
      exists i ::
        0 <= i < n && Emit(doc[i], req, mode, color) == Some(Dive(doc, n, req, mode, color)[j])
  {
    if n == 0 {
      assert Dive(doc, n, req, mode, color) == [];
    } else {
      EntryOrigin(doc, n - 1, req, mode, color);
      var acc := Dive(doc, n - 1, req, mode, color);
      var r := Dive(doc, n, req, mode, color);
      var e := Emit(doc[n - 1], req, mode, color);
      forall j | 0 <= j < |r|
        ensures exists i ::
          0 <= i < n && Emit(doc[i], req, mode, color) == Some(Dive(doc, n, req, mode, color)[j])
      {
        if e.Some? && (j >= |acc| || acc[j].0 == e.value.0) {
          assert Emit(doc[n - 1], req, mode, color) == Some(r[j]);
        } else {
          assert r[j] == acc[j];
          var i :| 0 <= i < n - 1 && Emit(doc[i], req, mode, color) == Some(acc[j]);
          assert Emit(doc[i], req, mode, color) == Some(r[j]);
        }
      }
    }
  }

  /** A search finds nothing exactly when no key passes any rule; that is an
      empty mapping, never an error. */
  lemma {:induction false} NoMatchIffEmpty(doc: Doc, n: nat, req: string, mode: Reversative, color: Template)
    requires n <= |doc|
    ensures Dive(doc, n, req, mode, color) == [] <==>
              forall i :: 0 <= i < n ==> Emit(doc[i], req, mode, color).None?
  {
    if n > 0 {
      NoMatchIffEmpty(doc, n - 1, req, mode, color);
      var acc := Dive(doc, n - 1, req, mode, color);
      var e := Emit(doc[n - 1], req, mode, color);
      if e.Some? {
        var r := Put(acc, e.value.0, e.value.1);
        assert e.value.0 in Keys(acc) ==> acc != [];
        assert |r| > 0;
      }
    }
  }

  // ---------------------------------------------------------------- what each mode keeps

  /** `k` is a key at some depth of `doc`. */
  ghost predicate KeyIn(k: string, doc: Doc)
    decreases Map(doc)
  {
    exists i :: 0 <= i < |doc| && DeepKeyAt(k, doc, i)
  }

  ghost predicate DeepKeyAt(k: string, doc: Doc, i: int)
    requires 0 <= i < |doc|
    decreases Map(doc), 0
  {
    assert doc[i] in doc;
    doc[i].0 == k || (doc[i].1.Map? && KeyIn(k, doc[i].1.entries))
  }

  /** `x` is a string or list value at some depth of `doc`. */
  ghost predicate LeafIn(x: Value, doc: Doc)
    decreases Map(doc)
  {
    exists i :: 0 <= i < |doc| && DeepLeafAt(x, doc, i)
  }

  ghost predicate DeepLeafAt(x: Value, doc: Doc, i: int)
    requires 0 <= i < |doc|
    decreases Map(doc), 0
  {
    assert doc[i] in doc;
    if doc[i].1.Map? then LeafIn(x, doc[i].1.entries) else doc[i].1 == x
  }

  /** Under `force_reverse` no key is highlighted: every key, at every depth of
      the result, is a key of the input. */
  lemma {:induction false} ForceReverseKeepsKeys(doc: Doc, req: string, color: Template, k: string)
    requires KeyIn(k, Search(doc, req, ForceReverse, color))
    ensures KeyIn(k, doc)
    decreases Map(doc)
  {
    var r := Search(doc, req, ForceReverse, color);
    var j :| 0 <= j < |r| && DeepKeyAt(k, r, j);
    EntryOrigin(doc, |doc|, req, ForceReverse, color);
    assert r == Dive(doc, |doc|, req, ForceReverse, color);
    var i :| 0 <= i < |doc| && Emit(doc[i], req, ForceReverse, color) == Some(r[j]);
    assert doc[i] in doc;
    if r[j].0 != k {
      var inner := doc[i].1.entries;
      assert r[j].1 == Map(Search(inner, req, ForceReverse, color));
      ForceReverseKeepsKeys(inner, req, color, k);
    }
    assert DeepKeyAt(k, doc, i);
  }

  /** Under mode `no` nothing is value-matched: every string and list in the
      result, at every depth, is an original, unhighlighted value of the input. */
  lemma {:induction false} NoModeKeepsValues(doc: Doc, req: string, color: Template, x: Value)
    requires LeafIn(x, Search(doc, req, No, color))
    ensures LeafIn(x, doc)
    decreases Map(doc)
  {
    var r := Search(doc, req, No, color);
    var j :| 0 <= j < |r| && DeepLeafAt(x, r, j);
    EntryOrigin(doc, |doc|, req, No, color);
    assert r == Dive(doc, |doc|, req, No, color);
    var i :| 0 <= i < |doc| && Emit(doc[i], req, No, color) == Some(r[j]);
    assert doc[i] in doc;
    if r[j].1 != doc[i].1 {
      var inner := doc[i].1.entries;
      assert r[j].1 == Map(Search(inner, req, No, color));
      NoModeKeepsValues(inner, req, color, x);
    }
    assert DeepLeafAt(x, doc, i);
  }

  /** An empty value in the result was copied under a matching key; a mapping
      added through recursion is never empty, and neither is a value match. */
  lemma EmptyOnlyByKeyMatch(doc: Doc, req: string, mode: Reversative, color: Template)
    ensures var r := Search(doc, req, mode, color);
      forall j :: 0 <= j < |r| && !Truthy(r[j].1) ==>
        exists i :: 0 <= i < |doc| && Contains(doc[i].0, req) && mode != ForceReverse &&
          r[j] == (LightPattern(doc[i].0, req, color), doc[i].1)
  {
    var r := Search(doc, req, mode, color);
    EntryOrigin(doc, |doc|, req, mode, color);
    assert r == Dive(doc, |doc|, req, mode, color);
    forall j | 0 <= j < |r| && !Truthy(r[j].1)
      ensures exists i :: 0 <= i < |doc| && Contains(doc[i].0, req) && mode != ForceReverse &&
                r[j] == (LightPattern(doc[i].0, req, color), doc[i].1)
    {
      var i :| 0 <= i < |doc| && Emit(doc[i], req, mode, color) == Some(r[j]);
    }
  }

  // ---------------------------------------------------------------- well-formedness

  /** Keys are unique at every level, as in any document Python's `json.load` builds. */
  ghost predicate WellFormed(doc: Doc)
    decreases Map(doc)
  {
    UniqueKeys(doc) && forall i :: 0 <= i < |doc| ==> NestedWellFormed(doc, i)
  }

  ghost predicate NestedWellFormed(doc: Doc, i: int)
    requires 0 <= i < |doc|
    decreases Map(doc), 0
  {
    assert doc[i] in doc;
    doc[i].1.Map? ==> WellFormed(doc[i].1.entries)
  }

  lemma {:induction false} SearchWellFormed(doc: Doc, req: string, mode: Reversative, color: Template)
    requires WellFormed(doc)
    ensures WellFormed(Search(doc, req, mode, color))
    decreases Map(doc)
  {
    var r := Search(doc, req, mode, color);
    EntryOrigin(doc, |doc|, req, mode, color);
    assert r == Dive(doc, |doc|, req, mode, color);
    forall j | 0 <= j < |r| ensures NestedWellFormed(r, j) {
      var i :| 0 <= i < |doc| && Emit(doc[i], req, mode, color) == Some(r[j]);
      assert doc[i] in doc;
      assert NestedWellFormed(doc, i);
      if r[j].1.Map? && r[j].1 != doc[i].1 {
        var inner := doc[i].1.entries;
        assert r[j].1 == Map(Search(inner, req, mode, color));
        SearchWellFormed(inner, req, mode, color);
      }
    }
  }

  // ---------------------------------------------------------------- order and precedence

  /** No two keys that pass the rules come out with the same (highlighted) key. */
  predicate DistinctEmitted(doc: Doc, req: string, mode: Reversative, color: Template) {
    forall i, j ::
      (0 <= i < j < |doc| &&
       Emit(doc[i], req, mode, color).Some? && Emit(doc[j], req, mode, color).Some?) ==>
      Emit(doc[i], req, mode, color).value.0 != Emit(doc[j], req, mode, color).value.0
  }

  /** The result without dict overwriting: the rules' outputs, in input order. */
  function Collect(doc: Doc, n: nat, req: string, mode: Reversative, color: Template): Doc
    requires n <= |doc|
  {
    if n == 0 then []
    else
      var e := Emit(doc[n - 1], req, mode, color);
      Collect(doc, n - 1, req, mode, color) + (if e.Some? then [e.value] else [])
  }

  /** `Collect` keeps, in order, exactly the entries that pass the rules. */
  lemma {:induction false} CollectOrigins(doc: Doc, n: nat, req: string, mode: Reversative, color: Template)
    returns (idx: seq<nat>)
    requires n <= |doc|
    ensures var r := Collect(doc, n, req, mode, color);
      |idx| == |r| &&
      (forall j :: 0 <= j < |idx| ==> idx[j] < n && Emit(doc[idx[j]], req, mode, color) == Some(r[j])) &&
      (forall a, b :: 0 <= a < b < |idx| ==> idx[a] < idx[b]) &&
      (forall i :: 0 <= i < n && Emit(doc[i], req, mode, color).Some? ==> i in idx)
  {
    if n == 0 {
      idx := [];
    } else {
      var prev := CollectOrigins(doc, n - 1, req, mode, color);
      var e := Emit(doc[n - 1], req, mode, color);
      idx := prev + (if e.Some? then [n - 1] else []);
    }
  }

  /** When no two emitted keys clash, `dive_in`'s dict is the plain filtered copy. */
  lemma {:induction false} DiveIsCollect(doc: Doc, n: nat, req: string, mode: Reversative, color: Template)
    requires n <= |doc|
    requires DistinctEmitted(doc, req, mode, color)
    ensures Dive(doc, n, req, mode, color) == Collect(doc, n, req, mode, color)
  {
    if n > 0 {
      DiveIsCollect(doc, n - 1, req, mode, color);
      var acc := Collect(doc, n - 1, req, mode, color);
      var e := Emit(doc[n - 1], req, mode, color);
      if e.Some? {
        var idx := CollectOrigins(doc, n - 1, req, mode, color);
        forall j | 0 <= j < |acc| ensures Keys(acc)[j] != e.value.0 {
          assert idx[j] < n - 1;
        }
      }
    }
  }

  /** `dive_in` keeps the input order: result entry `j` comes from input entry
      `idx[j]`, the positions increase, and every entry that passes a rule is there. */
  lemma SearchOrder(doc: Doc, req: string, mode: Reversative, color: Template) returns (idx: seq<nat>)
    requires DistinctEmitted(doc, req, mode, color)
    ensures var r := Search(doc, req, mode, color);
      |idx| == |r| &&
      (forall j :: 0 <= j < |idx| ==> idx[j] < |doc| && Emit(doc[idx[j]], req, mode, color) == Some(r[j])) &&
      (forall a, b :: 0 <= a < b < |idx| ==> idx[a] < idx[b]) &&
      (forall i :: 0 <= i < |doc| && Emit(doc[i], req, mode, color).Some? ==> i in idx)
  {
    DiveIsCollect(doc, |doc|, req, mode, color);
    idx := CollectOrigins(doc, |doc|, req, mode, color);
  }

  /** A key that contains the request, outside `force_reverse`, is emitted
      highlighted with its value copied verbatim: no recursion, no value matching. */
  lemma KeyMatchWins(doc: Doc, i: nat, req: string, mode: Reversative, color: Template)
    requires i < |doc| && Contains(doc[i].0, req) && mode != ForceReverse
    requires DistinctEmitted(doc, req, mode, color)
    ensures (LightPattern(doc[i].0, req, color), doc[i].1) in Search(doc, req, mode, color)
  {
    var idx := SearchOrder(doc, req, mode, color);
    assert i in idx;
    var j :| 0 <= j < |idx| && idx[j] == i;
  }

  /** Emitted keys cannot clash with the default template or under `force_reverse`,
      since then every emitted key is the input key itself. */
  lemma DistinctEmittedPlain(doc: Doc, req: string, mode: Reversative, color: Template)
    requires UniqueKeys(doc)
    requires color == Identity || mode == ForceReverse
    ensures DistinctEmitted(doc, req, mode, color)
  {
    forall i | 0 <= i < |doc| && Emit(doc[i], req, mode, color).Some?
      ensures Emit(doc[i], req, mode, color).value.0 == doc[i].0
    {
      if color == Identity {
        LightPatternDefault(doc[i].0, req);
      }
    }
  }

  /** The empty request (input `-r`) matches every key, so under the default
      template the search returns the document unchanged. */
  lemma {:induction false} EmptyRequestKeepsAll(doc: Doc, mode: Reversative)
    requires UniqueKeys(doc) && mode != ForceReverse
    ensures Search(doc, "", mode, Identity) == doc
  {
    DistinctEmittedPlain(doc, "", mode, Identity);
    DiveIsCollect(doc, |doc|, "", mode, Identity);
    CollectAll(doc, |doc|, mode);
  }

  lemma {:induction false} CollectAll(doc: Doc, n: nat, mode: Reversative)
    requires n <= |doc| && mode != ForceReverse
    ensures Collect(doc, n, "", mode, Identity) == doc[..n]
  {
    if n > 0 {
      CollectAll(doc, n - 1, mode);
      LightPatternDefault(doc[n - 1].0, "");
      assert doc[..n] == doc[..n - 1] + [doc[n - 1]];
    }
  }

  // ---------------------------------------------------------------- worked examples

  /** Reverse mode finds a value inside a nested list: the whole list is kept and
      only the matching element is highlighted. */
  lemma ReverseExample()
    ensures Search([("alpha", Map([("tags", List(["red", "blue"]))]))], "red", Reverse, Template("<", ">"))
         == [("alpha", Map([("tags", List(["<red>", "blue"]))]))]
  {
    var t := Template("<", ">");
    var inner: Doc := [("tags", List(["red", "blue"]))];
    ReverseExampleInner();
    AbsentFirstChar("alpha", "red");
    assert Emit(("alpha", Map(inner)), "red", Reverse, t)
        == Some(("alpha", Map([("tags", List(["<red>", "blue"]))])));
  }

  /** The nested mapping keeps its one entry, with the list highlighted. */
  lemma ReverseExampleInner()
    ensures Search([("tags", List(["red", "blue"]))], "red", Reverse, Template("<", ">"))
         == [("tags", List(["<red>", "blue"]))]
  {
    ReverseExampleTags();
  }

  /** In the nested mapping, the key `tags` does not match and its list does. */
  lemma ReverseExampleTags()
    ensures Emit(("tags", List(["red", "blue"])), "red", Reverse, Template("<", ">"))
         == Some(("tags", List(["<red>", "blue"])))
  {
    var t := Template("<", ">");
    RedHighlighted();
    AbsentFirstChar("tags", "red");
    AbsentFirstChar("blue", "red");
    assert LightAll(["red", "blue"], "red", t) == ["<red>", "blue"];
    assert Contains(["red", "blue"][0], "red");
  }

  lemma RedHighlighted()
    ensures LightPattern("red", "red", Template("<", ">")) == "<red>"
  {
    assert Template("<", ">").Format("red") == "<red>" && "red"[3..] == [];
  }

  /** Force-reverse mode ignores the matching key `red`, recurses and matches the
      nested value; mode `no` highlights the key and copies the value. */
  lemma ForceReverseExample()
    ensures Search([("red", Map([("x", Str("red"))]))], "red", ForceReverse, Template("<", ">"))
         == [("red", Map([("x", Str("<red>"))]))]
    ensures Search([("red", Map([("x", Str("red"))]))], "red", No, Template("<", ">"))
         == [("<red>", Map([("x", Str("red"))]))]
  {
    var t := Template("<", ">");
    var inner: Doc := [("x", Str("red"))];
    AbsentFirstChar("x", "red");
    RedHighlighted();
    assert Emit(inner[0], "red", ForceReverse, t) == Some(("x", Str("<red>")));
    assert Search(inner, "red", ForceReverse, t) == [("x", Str("<red>"))];
    assert Emit(("red", Map(inner)), "red", No, t) == Some(("<red>", Map(inner)));
  }

  /** With a decorating template two different keys can highlight to the same
      text; the later one then overwrites the earlier one's value, as a Python
      dict assignment does, and the result is shorter than the number of matches. */
  lemma HighlightCollision()
    ensures Search([("abba", Str("1")), ("baab", Str("2"))], "ab", No, Template("b", "a"))
         == [("bababa", Str("2"))]
  {
    var t := Template("b", "a");
    var doc: Doc := [("abba", Str("1")), ("baab", Str("2"))];
    CollisionFirst();
    CollisionSecond();
    assert Emit(doc[0], "ab", No, t) == Some(("bababa", Str("1")));
    assert Emit(doc[1], "ab", No, t) == Some(("bababa", Str("2")));
    assert Dive(doc, 1, "ab", No, t) == [("bababa", Str("1"))];
  }

  /** `abba` holds `ab` at its start and highlights to `bababa`. */
  lemma CollisionFirst()
    ensures Contains("abba", "ab") && LightPattern("abba", "ab", Template("b", "a")) == "bababa"
  {
    assert Template("b", "a").Format("ab") == "baba";
    assert Replace("a", "ab", "baba") == "a" by {
      assert !("ab" <= "a") && "a"[1..] == [];
    }
    assert Replace("ba", "ab", "baba") == "ba" by {
      assert !("ab" <= "ba") && "ba"[1..] == "a";
    }
    assert "ab" <= "abba" && "abba"[2..] == "ba";
  }

  /** `baab` holds `ab` in its middle and also highlights to `bababa`. */
  lemma CollisionSecond()
    ensures Contains("baab", "ab") && LightPattern("baab", "ab", Template("b", "a")) == "bababa"
  {
    assert Template("b", "a").Format("ab") == "baba";
    assert Replace("ab", "ab", "baba") == "baba" by {
      assert "ab"[2..] == [];
    }
    assert Replace("aab", "ab", "baba") == "ababa" by {
      assert !("ab" <= "aab") && "aab"[1..] == "ab";
    }
    assert !("ab" <= "baab") && "baab"[1..] == "aab" && "aab"[1..] == "ab";
  }
}
