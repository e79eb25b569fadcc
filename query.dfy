/**
 * The Solr query builder: an object holding an ordered list of `key=value` fragments that its
 * methods push (or, for the query parsers, put in front), and that `toString` joins into the
 * query string of a Solr request.
 */
module SolrQuery {
  import opened Wrappers
  import opened Strings
  import opened JsValues
  import opened Features
  import opened Clauses
  import opened Uri
  import opened Serialization

  class Query {
    /** The fragments, in the order they will appear in the query string. */
    var params: seq<string>

    constructor ()
      ensures params == []
    {
      params := [];
    }

    /** `dismax`: selects the DisMax parser by putting `defType=dismax` in front. */
    method Dismax()
      modifies this
      ensures params == ["defType=dismax"] + old(params)
    {
      params := ["defType=dismax"] + params;
    }

    /** `edismax`: selects the Extended DisMax parser by putting `defType=edismax` in front. */
    method Edismax()
      modifies this
      ensures params == ["defType=edismax"] + old(params)
    {
      params := ["defType=edismax"] + params;
    }

    /** `q`: pushes the main query, built from a fields object or taken from a string. */
    method Q(arg: Arg<Fields>)
      modifies this
      ensures params == old(params) + ["q=" + QueryValue(arg)]
    {
      params := params + ["q=" + QueryValue(arg)];
    }

    /** `qop`: pushes the default operator, whatever value it is given. */
    method Qop(v: Value)
      modifies this
      ensures params == old(params) + ["q.op=" + AsText(v)]
    {
      params := params + ["q.op=" + AsText(v)];
    }

    /** `fl`: pushes the field list for a string or an array of strings; ignores anything else. */
    method Fl(v: Value)
      modifies this
      ensures v.Text? ==> params == old(params) + ["fl=" + v.s]
      ensures v.List? ==> params == old(params) + ["fl=" + Join(v.items, ",")]
      ensures !v.Text? && !v.List? ==> params == old(params)
    {
      if v.Text? {
        params := params + ["fl=" + v.s];
      } else if v.List? {
        params := params + ["fl=" + Join(v.items, ",")];
      }
    }

    /** `start`: pushes the result offset. */
    method Start(v: Value)
      modifies this
      ensures params == old(params) + ["start=" + AsText(v)]
    {
      params := params + ["start=" + AsText(v)];
    }

    /** `rows`: pushes the page size. */
    method Rows(v: Value)
      modifies this
      ensures params == old(params) + ["rows=" + AsText(v)]
    {
      params := params + ["rows=" + AsText(v)];
    }

    /** `sort`: pushes the sort specification built from a fields object. */
    method Sort(arg: Arg<Fields>)
      modifies this
      ensures params == old(params) + ["sort=" + SortValue(arg)]
    {
      params := params + ["sort=" + SortValue(arg)];
    }

    /** `fq`: pushes one filter fragment per filter object, in order. */
    method Fq(arg: FilterArg)
      modifies this
      ensures arg.FilterList? ==> params == old(params) + FqFragments(arg.filters)
      ensures arg.FilterObject? ==> params == old(params) + [FqFragment(arg.filter)]
      ensures arg.NotAnObject? ==> params == old(params)
    {
      match arg {
        case FilterList(filters) =>
          for i := 0 to |filters|
            invariant params == old(params) + FqFragments(filters[..i])
          {
            FqFragmentsSnoc(filters, i);
            params := params + [FqFragment(filters[i])];
          }
          assert filters[..|filters|] == filters;
        case FilterObject(filter) =>
          params := params + [FqFragment(filter)];
        case NotAnObject =>
      }
    }

    /** `df`: pushes the default search field. */
    method Df(v: Value)
      modifies this
      ensures params == old(params) + ["df=" + AsText(v)]
    {
      params := params + ["df=" + AsText(v)];
    }

    /** `wt`: pushes the response writer; the default `wt=json` is then no longer added. */
    method Wt(v: Value)
      modifies this
      ensures params == old(params) + ["wt=" + AsText(v)]
      ensures ToString() == Join(params, "&")
    {
      params := params + ["wt=" + AsText(v)];
      assert OccursAt("wt=", params[|params| - 1], 0);
      OccursInJoin(params, |params| - 1, "&", "wt=");
    }

    /** `addParams`: pushes one `field=value` fragment per entry, the value escaped, in order. */
    method AddParams(entries: seq<JsObject>)
      modifies this
      ensures params == old(params) + ParamFragments(entries)
    {
      for i := 0 to |entries|
        invariant params == old(params) + ParamFragments(entries[..i])
      {
        ParamFragmentsSnoc(entries, i);
        params := params + [ParamFragment(entries[i])];
      }
      assert entries[..|entries|] == entries;
    }

    /**
     * `spatial`: for a non-empty options object, pushes the toggle and the defined `pt`,
     * `sfield` and `d`; for anything else it fails with the source's error and pushes nothing.
     */
    method Spatial(arg: Arg<JsObject>) returns (r: Outcome)
      modifies this
      ensures r == Fail("spatial params must be an object") <==> !(arg.Obj? && |arg.o| > 0)
      ensures r.Pass? <==> arg.Obj? && |arg.o| > 0
      ensures r.Fail? ==> params == old(params)
      ensures r.Pass? ==> params == old(params) + FeatureFragments("spatial", SpatialTable, arg.o)
    {
      if arg.Obj? && |arg.o| > 0 {
        ApplyFeature("spatial", SpatialTable, arg);
        r := Pass;
      } else {
        r := Fail("spatial params must be an object");
      }
    }

    /**
     * The shape shared by the feature methods: nothing for an argument that is neither a string
     * nor an object, the string itself for a string, and for an object the toggle followed by a
     * fragment for each defined option, in table order.
     */
    method ApplyFeature(feature: string, table: seq<Param>, arg: Arg<JsObject>)
      modifies this
      ensures !arg.Str? && !arg.Obj? ==> params == old(params)
      ensures arg.Str? ==> params == old(params) + [arg.s]
      ensures arg.Obj? ==> params == old(params) + FeatureFragments(feature, table, arg.o)
    {
      if !arg.Str? && !arg.Obj? {
        return;
      }
      if arg.Str? {
        params := params + [arg.s];
        return;
      }
      var o := arg.o;
      params := params + [Toggle(feature, o)];
      for i := 0 to |table|
        invariant params == old(params) + [Toggle(feature, o)] + Emitted(table[..i], o)
      {
        var v := Get(o, table[i].key);
        if IsDefined(v) {
          params := params + [Fragment(table[i], v)];
        }
        assert table[..i + 1] == table[..i] + [table[i]];
        EmittedAppend(table[..i], [table[i]], o);
      }
      assert table[..|table|] == table;
    }

    /** `termsQuery`: the Terms component. */
    method TermsQuery(arg: Arg<JsObject>)
      modifies this
      ensures !arg.Str? && !arg.Obj? ==> params == old(params)
      ensures arg.Str? ==> params == old(params) + [arg.s]
      ensures arg.Obj? ==> params == old(params) + FeatureFragments("terms", TermsTable, arg.o)
    {
      ApplyFeature("terms", TermsTable, arg);
    }

    /** `mltQuery`: the MoreLikeThis component. */
    method MltQuery(arg: Arg<JsObject>)
      modifies this
      ensures !arg.Str? && !arg.Obj? ==> params == old(params)
      ensures arg.Str? ==> params == old(params) + [arg.s]
      ensures arg.Obj? ==> params == old(params) + FeatureFragments("mlt", MltTable, arg.o)
    {
      ApplyFeature("mlt", MltTable, arg);
    }

    /** `spellcheckQuery`: the spell checking component. */
    method SpellcheckQuery(arg: Arg<JsObject>)
      modifies this
      ensures !arg.Str? && !arg.Obj? ==> params == old(params)
      ensures arg.Str? ==> params == old(params) + [arg.s]
      ensures arg.Obj? ==> params == old(params) + FeatureFragments("spellcheck", SpellcheckTable, arg.o)
    {
      ApplyFeature("spellcheck", SpellcheckTable, arg);
    }

    /** `suggestQuery`: the suggester component. */
    method SuggestQuery(arg: Arg<JsObject>)
      modifies this
      ensures !arg.Str? && !arg.Obj? ==> params == old(params)
      ensures arg.Str? ==> params == old(params) + [arg.s]
      ensures arg.Obj? ==> params == old(params) + FeatureFragments("suggest", SuggestTable, arg.o)
    {
      ApplyFeature("suggest", SuggestTable, arg);
    }

    /** `facetQuery`: faceting. */
    method FacetQuery(arg: Arg<JsObject>)
      modifies this
      ensures !arg.Str? && !arg.Obj? ==> params == old(params)
      ensures arg.Str? ==> params == old(params) + [arg.s]
      ensures arg.Obj? ==> params == old(params) + FeatureFragments("facet", FacetTable, arg.o)
    {
      ApplyFeature("facet", FacetTable, arg);
    }

    /** `groupQuery`: result grouping. */
    method GroupQuery(arg: Arg<JsObject>)
      modifies this
      ensures !arg.Str? && !arg.Obj? ==> params == old(params)
      ensures arg.Str? ==> params == old(params) + [arg.s]
      ensures arg.Obj? ==> params == old(params) + FeatureFragments("group", GroupTable, arg.o)
    {
      ApplyFeature("group", GroupTable, arg);
    }

    /** `hlQuery`: highlighting. */
    method HlQuery(arg: Arg<JsObject>)
      modifies this
      ensures !arg.Str? && !arg.Obj? ==> params == old(params)
      ensures arg.Str? ==> params == old(params) + [arg.s]
      ensures arg.Obj? ==> params == old(params) + FeatureFragments("hl", HlTable, arg.o)
    {
      ApplyFeature("hl", HlTable, arg);
    }

    /** `toString`: the serialized query string; it reads the fragments and changes nothing. */
    function ToString(): (r: string)
      reads this
      ensures r == Serialize(params)
    {
      Serialize(params)
    }
  }

  /**
   * The parser methods put their fragment in front of everything pushed so far, and the last
   * one called ends up first: `dismax`, `q(word)`, `edismax`, then `toString`, for a plain word
   * that escaping leaves alone and that holds no `w`.
   */
  method ParserOrderExample(word: string) returns (r: string)
    requires forall i :: 0 <= i < |word| ==> IsUnreserved(word[i])
    requires 'w' !in word
    ensures r == "defType=edismax" + "&" + "defType=dismax" + "&" + "q=" + word + "&wt=json"
  {
    var query := new Query();
    query.Dismax();
    query.Q(Str(word));
    query.Edismax();
    assert query.params == ["defType=edismax", "defType=dismax", "q=" + QueryValue(Str(word))];
    ParserOrderSerializes(word);
    r := query.ToString();
  }

  /** The query string of the fragments `ParserOrderExample` leaves behind. */
  lemma ParserOrderSerializes(word: string)
    requires forall i :: 0 <= i < |word| ==> IsUnreserved(word[i])
    requires 'w' !in word
    ensures Serialize(["defType=edismax", "defType=dismax", "q=" + QueryValue(Str(word))])
         == "defType=edismax" + "&" + "defType=dismax" + "&" + "q=" + word + "&wt=json"
  {
    var ps := ["defType=edismax", "defType=dismax", "q=" + QueryValue(Str(word))];
    EncodeIdentity(word);
    assert ps == ["defType=edismax", "defType=dismax", "q=" + word];
    JoinThree("defType=edismax", "defType=dismax", "q=" + word, "&");
    var joined := "defType=edismax" + "&" + "defType=dismax" + "&" + "q=" + word;
    assert Join(ps, "&") == joined;
    assert 'w' !in "defType=edismax" + "&" + "defType=dismax" + "&" + "q=";
    AppendExcludes("defType=edismax" + "&" + "defType=dismax" + "&" + "q=", word, 'w');
    NoWtWithoutW(joined);
    assert Serialize(ps) == joined + "&" + DefaultWriter;
  }
}
