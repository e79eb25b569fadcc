/**
 * The seven feature methods (`termsQuery`, `mltQuery`, `spellcheckQuery`, `suggestQuery`,
 * `facetQuery`, `groupQuery`, `hlQuery`) and `spatial` each test a fixed list of option keys in
 * a fixed order and push `<solr name>=<value>` for every key that is defined. Each such list is
 * written here as a table of `Param`s, in the order the source tests the keys; `Emitted` is what
 * one pass down the list pushes.
 */
module Features {
  import opened Strings
  import opened Uri
  import opened JsValues
  import opened Wrappers

  /**
   * How a value is written: as its text, percent-encoded, or (facet's `field`) an array
   * repeated under the parameter's own name.
   */
  datatype Kind = Raw | Encoded | Repeated

  /** A character a parameter name can hold: anything but the `=` that ends the name in a fragment. */
  type NameChar = c: char | c != '='

  /** The option key `key` is sent as the Solr parameter `name`. */
  datatype Param = Param(key: string, name: seq<NameChar>, kind: Kind)

  function Render(p: Param, v: Value): string
  {
    match p.kind
    case Raw => AsText(v)
    case Encoded => EncodeURIComponent(AsText(v))
    case Repeated => if v.List? then Join(v.items, "&" + p.name + "=") else AsText(v)
  }

  /** The fragment pushed for a defined option. */
  function Fragment(p: Param, v: Value): string
  {
    p.name + "=" + Render(p, v)
  }

  /** The fragments one pass down `table` pushes for the options object `o`, in table order. */
  function Emitted(table: seq<Param>, o: JsObject): seq<string>
  {
    if table == [] then []
    else
      var v := Get(o, table[0].key);
      (if IsDefined(v) then [Fragment(table[0], v)] else []) + Emitted(table[1..], o)
  }

  /** The Solr names of the table entries whose option is defined in `o`, in table order. */
  function DefinedNames(table: seq<Param>, o: JsObject): seq<string>
  {
    if table == [] then []
    else (if IsDefined(Get(o, table[0].key)) then [table[0].name] else []) + DefinedNames(table[1..], o)
  }

  /** The toggle fragment: `<feature>=false` exactly when the `on` option is the value `false`. */
  function Toggle(feature: string, o: JsObject): (r: string)
    ensures r == feature + "=false" <==> Get(o, "on") == Bool(false)
    ensures r == feature + "=true" <==> Get(o, "on") != Bool(false)
  {
    assert (feature + "=false")[|feature| + 1] == 'f' && (feature + "=true")[|feature| + 1] == 't';
    if Get(o, "on") == Bool(false) then feature + "=false" else feature + "=true"
  }

  /** What a feature method pushes for an options object: the toggle, then the defined options. */
  function FeatureFragments(feature: string, table: seq<Param>, o: JsObject): seq<string>
  {
    [Toggle(feature, o)] + Emitted(table, o)
  }

  /** The keys of a list of fragments. */
  function Keys(fs: seq<string>): (r: seq<string>)
    ensures |r| == |fs| && forall i :: 0 <= i < |fs| ==> r[i] == KeyOf(fs[i])
  {
    seq(|fs|, i requires 0 <= i < |fs| => KeyOf(fs[i]))
  }

  /** Names are pairwise distinct, so a fragment's key tells which option it came from. */
  predicate WellFormed(table: seq<Param>)
  {
    forall i, j :: 0 <= i < j < |table| ==> table[i].name != table[j].name
  }

  lemma KeysAppend(a: seq<string>, b: seq<string>)
    ensures Keys(a + b) == Keys(a) + Keys(b)
  {
  }

  /** One fragment per defined option and none for an undefined one, keyed by the Solr name, in table order. */
  lemma {:induction false} EmittedKeys(table: seq<Param>, o: JsObject)
    ensures Keys(Emitted(table, o)) == DefinedNames(table, o)
  {
    if table != [] {
      var v := Get(o, table[0].key);
      var rest := Emitted(table[1..], o);
      EmittedKeys(table[1..], o);
      if IsDefined(v) {
        var f := Fragment(table[0], v);
        KeyOfFragment(table[0].name, Render(table[0], v));
        assert Keys([f]) == [table[0].name];
        assert Emitted(table, o) == [f] + rest;
        KeysAppend([f], rest);
      } else {
        assert Emitted(table, o) == rest;
      }
    }
  }

  /** A defined option's fragment is pushed. */
  lemma {:induction false} EmittedHas(table: seq<Param>, o: JsObject, i: nat)
    requires i < |table| && IsDefined(Get(o, table[i].key))
    ensures Fragment(table[i], Get(o, table[i].key)) in Emitted(table, o)
  {
    if i > 0 {
      EmittedHas(table[1..], o, i - 1);
    }
  }

  /** Every pushed fragment is the fragment of a defined option. */
  lemma {:induction false} EmittedFrom(table: seq<Param>, o: JsObject, f: string)
    requires f in Emitted(table, o)
    ensures exists j :: 0 <= j < |table| && IsDefined(Get(o, table[j].key)) && f == Fragment(table[j], Get(o, table[j].key))
  {
    var v := Get(o, table[0].key);
    if IsDefined(v) && f == Fragment(table[0], v) {
      assert IsDefined(Get(o, table[0].key));
    } else {
      EmittedFrom(table[1..], o, f);
      var j :| 0 <= j < |table[1..]| && IsDefined(Get(o, table[1..][j].key)) && f == Fragment(table[1..][j], Get(o, table[1..][j].key));
      assert table[1..][j] == table[j + 1];
    }
  }

  /**
   * In a well-formed table, a fragment keyed by an entry's Solr name is pushed exactly when
   * that entry's option is defined, and it is then that option's fragment.
   */
  lemma EmittedFor(table: seq<Param>, o: JsObject, i: nat)
    requires WellFormed(table) && i < |table|
    ensures IsDefined(Get(o, table[i].key)) <==> exists f :: f in Emitted(table, o) && KeyOf(f) == table[i].name
    ensures forall f :: f in Emitted(table, o) && KeyOf(f) == table[i].name ==> f == Fragment(table[i], Get(o, table[i].key))
  {
    var v := Get(o, table[i].key);
    if IsDefined(v) {
      EmittedHas(table, o, i);
      KeyOfFragment(table[i].name, Render(table[i], v));
    }
    forall f | f in Emitted(table, o) && KeyOf(f) == table[i].name
      ensures IsDefined(v) && f == Fragment(table[i], v)
    {
      EmittedFrom(table, o, f);
      var j :| 0 <= j < |table| && IsDefined(Get(o, table[j].key)) && f == Fragment(table[j], Get(o, table[j].key));
      KeyOfFragment(table[j].name, Render(table[j], Get(o, table[j].key)));
      assert table[j].name == table[i].name;
    }
  }

  /** A feature pushes its toggle first, then one fragment per defined option in table order. */
  lemma FeatureKeys(feature: string, table: seq<Param>, o: JsObject)
    requires '=' !in feature
    ensures Keys(FeatureFragments(feature, table, o)) == [feature] + DefinedNames(table, o)
  {
    EmittedKeys(table, o);
    KeysAppend([Toggle(feature, o)], Emitted(table, o));
    if Get(o, "on") == Bool(false) {
      assert Toggle(feature, o) == feature + "=" + "false";
      KeyOfFragment(feature, "false");
    } else {
      assert Toggle(feature, o) == feature + "=" + "true";
      KeyOfFragment(feature, "true");
    }
  }

  /** The toggle never suppresses the options: they follow it whatever `on` holds. */
  lemma ToggleDoesNotShortCircuit(feature: string, table: seq<Param>, o: JsObject)
    requires forall i :: 0 <= i < |table| ==> table[i].key != "on"
    ensures FeatureFragments(feature, table, o)[1..] == Emitted(table, o)
    ensures FeatureFragments(feature, table, o)[1..] == FeatureFragments(feature, table, o[ "on" := Bool(true)])[1..]
  {
    EmittedIgnores(table, o, "on", Bool(true));
  }

  /** An option key the table does not test has no influence on what is pushed. */
  lemma {:induction false} EmittedIgnores(table: seq<Param>, o: JsObject, key: string, v: Value)
    requires forall i :: 0 <= i < |table| ==> table[i].key != key
    ensures Emitted(table, o[key := v]) == Emitted(table, o)
  {
    if table != [] {
      assert Get(o[key := v], table[0].key) == Get(o, table[0].key);
      EmittedIgnores(table[1..], o, key, v);
    }
  }

  /** Pushing for the entries of `a + b` pushes for those of `a`, then for those of `b`. */
  lemma {:induction false} EmittedAppend(a: seq<Param>, b: seq<Param>, o: JsObject)
    ensures Emitted(a + b, o) == Emitted(a, o) + Emitted(b, o)
  {
    if a != [] {
      assert (a + b)[0] == a[0] && (a + b)[1..] == a[1..] + b;
      EmittedAppend(a[1..], b, o);
    } else {
      assert a + b == b;
    }
  }

  /** Nothing is pushed for a table none of whose options is defined. */
  lemma {:induction false} EmittedNone(table: seq<Param>, o: JsObject)
    requires forall j :: 0 <= j < |table| ==> !IsDefined(Get(o, table[j].key))
    ensures Emitted(table, o) == []
  {
    if table != [] {
      EmittedNone(table[1..], o);
    }
  }

  /** With exactly one option defined, its fragment is all that is pushed. */
  lemma EmittedOnly(table: seq<Param>, o: JsObject, i: nat)
    requires i < |table| && IsDefined(Get(o, table[i].key))
    requires forall j :: 0 <= j < |table| && j != i ==> !IsDefined(Get(o, table[j].key))
    ensures Emitted(table, o) == [Fragment(table[i], Get(o, table[i].key))]
  {
    assert table == table[..i] + [table[i]] + table[i + 1..];
    EmittedAppend(table[..i] + [table[i]], table[i + 1..], o);
    EmittedAppend(table[..i], [table[i]], o);
    EmittedNone(table[..i], o);
    EmittedNone(table[i + 1..], o);
  }

  /**
   * facet's `field` given an array of `&`-free names: splitting the fragment on `&` gives one
   * `facet.field=<name>` per element, in order.
   */
  lemma FacetFieldRepeats(items: seq<string>)
    requires |items| >= 1 && forall i :: 0 <= i < |items| ==> '&' !in items[i]
    ensures Split(Fragment(FacetField, List(items)), '&') == Prefixed("facet.field=", items)
  {
    var name: string := FacetField.name;
    assert name + "=" == "facet.field=" && "&" + name + "=" == ['&'] + "facet.field=";
    assert Fragment(FacetField, List(items)) == "facet.field=" + Join(items, ['&'] + "facet.field=");
    JoinPrefixed(items, '&', "facet.field=");
    var ps := Prefixed("facet.field=", items);
    forall i | 0 <= i < |ps|
      ensures '&' !in ps[i]
    {
      assert ps[i] == "facet.field=" + items[i];
    }
    SplitJoin(ps, '&');
  }

  /** Any other parameter given an array of `,`-free values sends them comma-joined; splitting on `,` recovers them. */
  lemma CommaListRecovered(p: Param, items: seq<string>)
    requires p.kind == Raw
    requires |items| >= 1 && forall i :: 0 <= i < |items| ==> ',' !in items[i]
    ensures Fragment(p, List(items)) == p.name + "=" + Join(items, ",")
    ensures Split(Render(p, List(items)), ',') == items
  {
    SplitJoin(items, ',');
  }

  /** facet options holding only `field` push the toggle and the `facet.field` fragment, nothing else. */
  lemma FacetFieldOnly(v: Value)
    requires IsDefined(v)
    ensures FeatureFragments("facet", FacetTable, map["field" := v]) == ["facet=true", Fragment(FacetField, v)]
  {
    assert forall j :: 0 <= j < |FacetTable| && j != 1 ==> FacetTable[j].key != "field";
    var o := map["field" := v];
    EmittedOnly(FacetTable, o, 1);
    assert Get(o, "on") == Undefined;
    assert Toggle("facet", o) == "facet=true";
    assert Get(o, FacetTable[1].key) == v;
  }

  /** facet's `field` given two names. */
  lemma FacetTwoFields(a: string, b: string)
    ensures Fragment(FacetField, List([a, b])) == "facet.field=" + a + "&facet.field=" + b
  {
    var name: string := FacetField.name;
    assert name + "=" == "facet.field=" && "&" + name + "=" == "&facet.field=";
    assert [a, b][1..] == [b];
    assert Join([a, b], "&facet.field=") == a + "&facet.field=" + b;
    assert Render(FacetField, List([a, b])) == a + "&facet.field=" + b;
    assert name + "=" + (a + "&facet.field=" + b) == "facet.field=" + a + "&facet.field=" + b;
  }

  /** `facetQuery({field: [a, b]})`: the toggle, then one fragment naming `facet.field` twice. */
  lemma FacetExample(a: string, b: string)
    ensures FeatureFragments("facet", FacetTable, map["field" := List([a, b])])
         == ["facet=true", "facet.field=" + a + "&facet.field=" + b]
  {
    FacetFieldOnly(List([a, b]));
    FacetTwoFields(a, b);
  }

  /** A three-entry table whose options are all defined pushes all three fragments, in order. */
  lemma EmittedThree(a: Param, b: Param, c: Param, o: JsObject)
    requires IsDefined(Get(o, a.key)) && IsDefined(Get(o, b.key)) && IsDefined(Get(o, c.key))
    ensures Emitted([a, b, c], o) == [Fragment(a, Get(o, a.key)), Fragment(b, Get(o, b.key)), Fragment(c, Get(o, c.key))]
  {
    assert [c][1..] == [];
    assert Emitted([c], o) == [Fragment(c, Get(o, c.key))];
    assert [b, c][1..] == [c];
    assert Emitted([b, c], o) == [Fragment(b, Get(o, b.key))] + Emitted([c], o);
    assert [a, b, c][1..] == [b, c];
    assert Emitted([a, b, c], o) == [Fragment(a, Get(o, a.key))] + Emitted([b, c], o);
  }

  /** `spatial({pt, sfield, d})` with all three defined, before validation. */
  lemma SpatialExample(pt: Value, sfield: Value, d: Value)
    requires IsDefined(pt) && IsDefined(sfield) && IsDefined(d)
    ensures FeatureFragments("spatial", SpatialTable, map["pt" := pt, "sfield" := sfield, "d" := d])
         == ["spatial=true", "pt=" + AsText(pt), "sfield=" + AsText(sfield), "d=" + AsText(d)]
  {
    var o := map["pt" := pt, "sfield" := sfield, "d" := d];
    assert Get(o, "pt") == pt && Get(o, "sfield") == sfield && Get(o, "d") == d;
    assert SpatialTable == [SpatialTable[0], SpatialTable[1], SpatialTable[2]];
    EmittedThree(SpatialTable[0], SpatialTable[1], SpatialTable[2], o);
    assert Fragment(SpatialTable[0], pt) == "pt=" + AsText(pt);
    assert Fragment(SpatialTable[1], sfield) == "sfield=" + AsText(sfield);
    assert Fragment(SpatialTable[2], d) == "d=" + AsText(d);
    assert Get(o, "on") == Undefined;
    assert Toggle("spatial", o) == "spatial=true";
  }

  // ---- The tables, in the order the source tests the keys ----

  const TermsTable: seq<Param> := [
    Param("fl", "terms.fl", Raw),
    Param("lower", "terms.lower", Raw),
    Param("lowerIncl", "terms.lower.incl", Raw),
    Param("mincount", "terms.mincount", Raw),
    Param("maxcount", "terms.maxcount", Raw),
    Param("prefix", "terms.prefix", Encoded),
    Param("regex", "terms.regex", Raw),
    Param("regexFlag", "terms.regexFlag", Raw),
    Param("limit", "terms.limit", Raw),
    Param("upper", "terms.upper", Raw),
    Param("upperIncl", "terms.upper.incl", Raw),
    Param("raw", "terms.raw", Raw),
    Param("sort", "terms.sort", Raw)
  ]

  const MltTable: seq<Param> := [
    Param("fl", "mlt.fl", Raw),
    Param("mintf", "mlt.mintf", Raw),
    Param("mindf", "mlt.mindf", Raw),
    Param("maxdf", "mlt.maxdf", Raw),
    Param("minwl", "mlt.minwl", Raw),
    Param("maxwl", "mlt.maxwl", Raw),
    Param("maxqt", "mlt.maxqt", Raw),
    Param("maxntp", "mlt.maxntp", Raw),
    Param("boost", "mlt.boost", Raw),
    Param("qf", "mlt.qf", Raw),
    Param("count", "mlt.count", Raw),
    Param("matchInclude", "mlt.match.include", Raw),
    Param("matchOffset", "mlt.match.offset", Raw),
    Param("interestingTerms", "mlt.interestingTerms", Raw)
  ]

  const SpellcheckTable: seq<Param> := [
    Param("q", "spellcheck.q", Encoded),
    Param("build", "spellcheck.build", Raw),
    Param("collate", "spellcheck.collate", Raw),
    Param("maxCollations", "spellcheck.maxCollations", Raw),
    Param("maxCollationTries", "spellcheck.maxCollationTries", Raw),
    Param("maxCollationEvaluations", "spellcheck.maxCollationEvaluations", Raw),
    Param("collateExtendedResults", "spellcheck.collateExtendedResults", Raw),
    Param("collateMaxCollectDocs", "spellcheck.collateMaxCollectDocs", Raw),
    Param("count", "spellcheck.count", Raw),
    Param("dictionary", "spellcheck.dictionary", Raw),
    Param("extendedResults", "spellcheck.extendedResults", Raw),
    Param("onlyMorePopular", "spellcheck.onlyMorePopular", Raw),
    Param("maxResultsForSuggest", "spellcheck.maxResultsForSuggest", Raw),
    Param("alternativeTermCount", "spellcheck.alternativeTermCount", Raw),
    Param("reload", "spellcheck.reload", Raw),
    Param("accuracy", "spellcheck.accuracy", Raw)
  ]

  const SuggestTable: seq<Param> := [
    Param("q", "suggest.q", Encoded),
    Param("build", "suggest.build", Raw),
    Param("count", "suggest.count", Raw),
    Param("dictionary", "suggest.dictionary", Raw)
  ]

  /** facet's `field`: an array becomes `a&facet.field=b&...`, so each element carries the key. */
  const FacetField: Param := Param("field", "facet.field", Repeated)

  const FacetTable: seq<Param> := [
    Param("query", "facet.query", Raw),
    FacetField,
    Param("prefix", "facet.prefix", Raw),
    Param("contains", "facet.contains", Encoded),
    Param("containsIgnoreCase", "facet.contains.ignoreCase", Encoded),
    Param("sort", "facet.sort", Raw),
    Param("limit", "facet.limit", Raw),
    Param("offset", "facet.offset", Raw),
    Param("mincount", "facet.mincount", Raw),
    Param("missing", "facet.missing", Raw),
    Param("method", "facet.method", Raw)
  ]

  const GroupTable: seq<Param> := [
    Param("field", "group.field", Raw),
    Param("query", "group.query", Raw),
    Param("limit", "group.limit", Raw),
    Param("offset", "group.offset", Raw),
    Param("sort", "group.sort", Raw),
    Param("format", "group.format", Raw),
    Param("main", "group.main", Raw),
    Param("ngroups", "group.ngroups", Raw),
    Param("truncate", "group.truncate", Raw),
    Param("facet", "group.facet", Raw),
    Param("cachePercent", "group.cache.percent", Raw)
  ]

  const HlTable: seq<Param> := [
    Param("method", "hl.method", Raw),
    Param("q", "hl.q", Raw),
    Param("qparser", "hl.qparser", Raw),
    Param("fl", "hl.fl", Raw),
    Param("snippets", "hl.snippets", Raw),
    Param("fragsize", "hl.fragsize", Raw),
    Param("mergeContiguous", "hl.mergeContiguous", Raw),
    Param("requireFieldMatch", "hl.requireFieldMatch", Raw),
    Param("maxAnalyzedChars", "hl.maxAnalyzedChars", Raw),
    Param("maxMultiValuedToExamine", "hl.maxMultiValuedToExamine", Raw),
    Param("maxMultiValuedToMatch", "hl.maxMultiValuedToMatch", Raw),
    Param("alternateField", "hl.alternateField", Raw),
    Param("maxAlternateFieldLength", "hl.maxAlternateFieldLength", Raw),
    Param("formatter", "hl.formatter", Raw),
    Param("simplePre", "hl.simple.pre", Raw),
    Param("simplePost", "hl.simple.post", Raw),
    Param("fragmenter", "hl.fragmenter", Raw),
    Param("usePhraseHighlighter", "hl.usePhraseHighlighter", Raw),
    Param("highlightMultiTerm", "hl.highlightMultiTerm", Raw),
    Param("regexSlop", "hl.regex.slop", Raw),
    Param("regexPattern", "hl.regex.pattern", Raw),
    Param("regexMaxAnalyzedChars", "hl.regex.maxAnalyzedChars", Raw),
    Param("preserveMulti", "hl.preserveMulti", Raw)
  ]

  /** `spatial`'s geo parameters, all written raw. */
  const SpatialTable: seq<Param> := [
    Param("pt", "pt", Raw),
    Param("sfield", "sfield", Raw),
    Param("d", "d", Raw)
  ]

  /** Exactly the entries named in `names` are percent-encoded. */
  predicate EncodesExactly(table: seq<Param>, names: set<string>)
  {
    forall i :: 0 <= i < |table| ==> (table[i].kind == Encoded <==> table[i].name in names)
  }

  /** The table never tests the `on` key, which is the toggle's alone. */
  predicate LeavesOnAlone(table: seq<Param>)
  {
    forall i :: 0 <= i < |table| ==> table[i].key != "on"
  }

  lemma TermsTableWellFormed()
    ensures WellFormed(TermsTable)
  {
  }

  lemma TermsTableNames()
    ensures EncodesExactly(TermsTable, {"terms.prefix"})
  {
  }

  lemma MltTableWellFormed()
    ensures WellFormed(MltTable)
  {
  }

  lemma MltTableNames()
    ensures EncodesExactly(MltTable, {})
  {
  }

  lemma SpellcheckTableWellFormed()
    ensures WellFormed(SpellcheckTable)
  {
  }

  lemma SpellcheckTableNames()
    ensures EncodesExactly(SpellcheckTable, {"spellcheck.q"})
  {
  }

  lemma SuggestTableWellFormed()
    ensures WellFormed(SuggestTable)
  {
  }

  lemma SuggestTableNames()
    ensures EncodesExactly(SuggestTable, {"suggest.q"})
  {
  }

  lemma FacetTableWellFormed()
    ensures WellFormed(FacetTable)
  {
  }

  /** `facet.contains` and `facet.contains.ignoreCase` are escaped; `facet.prefix` is not. */
  lemma FacetTableNames()
    ensures EncodesExactly(FacetTable, {"facet.contains", "facet.contains.ignoreCase"})
  {
  }

  lemma GroupTableWellFormed()
    ensures WellFormed(GroupTable)
  {
  }

  lemma GroupTableNames()
    ensures EncodesExactly(GroupTable, {})
  {
  }

  // hl's table is long enough that its distinctness is proved in three parts.
  lemma HlTableHeadDistinct()
    ensures forall i, j :: 0 <= i < j < 12 ==> HlTable[i].name != HlTable[j].name
  {
  }

  lemma HlTableTailDistinct()
    ensures forall i, j :: 12 <= i < j < |HlTable| ==> HlTable[i].name != HlTable[j].name
  {
  }

  lemma HlTableHeadTailDisjoint()
    ensures forall i, j :: 0 <= i < 12 <= j < |HlTable| ==> HlTable[i].name != HlTable[j].name
  {
  }

  lemma HlTableWellFormed()
    ensures WellFormed(HlTable)
  {
    HlTableHeadDistinct();
    HlTableTailDistinct();
    HlTableHeadTailDisjoint();
  }

  /** Nothing in `hl`, not even `hl.q`, is escaped. */
  lemma HlTableNames()
    ensures EncodesExactly(HlTable, {})
  {
  }

  lemma SpatialTableWellFormed()
    ensures WellFormed(SpatialTable)
  {
  }

  lemma SpatialTableNames()
    ensures EncodesExactly(SpatialTable, {})
  {
  }

  /** terms' inclusive-bound options map to dotted names. */
  lemma TermsDottedNames()
    ensures TermsTable[2].key == "lowerIncl" && TermsTable[2].name == "terms.lower.incl"
    ensures TermsTable[10].key == "upperIncl" && TermsTable[10].name == "terms.upper.incl"
  {
  }

  /** mlt's match options map to dotted names. */
  lemma MltDottedNames()
    ensures MltTable[11].key == "matchInclude" && MltTable[11].name == "mlt.match.include"
    ensures MltTable[12].key == "matchOffset" && MltTable[12].name == "mlt.match.offset"
  {
  }

  /** group's `cachePercent` maps to a dotted name. */
  lemma GroupDottedNames()
    ensures GroupTable[10].key == "cachePercent" && GroupTable[10].name == "group.cache.percent"
  {
  }

  /** hl's simple and regex options map to dotted names. */
  lemma HlDottedNames()
    ensures HlTable[14].key == "simplePre" && HlTable[14].name == "hl.simple.pre"
    ensures HlTable[15].key == "simplePost" && HlTable[15].name == "hl.simple.post"
    ensures HlTable[19].key == "regexSlop" && HlTable[19].name == "hl.regex.slop"
    ensures HlTable[20].key == "regexPattern" && HlTable[20].name == "hl.regex.pattern"
    ensures HlTable[21].key == "regexMaxAnalyzedChars" && HlTable[21].name == "hl.regex.maxAnalyzedChars"
  {
  }

  /** No table tests the `on` key, which belongs to the toggle alone. */
  lemma TablesLeaveOnAlone()
    ensures LeavesOnAlone(TermsTable) && LeavesOnAlone(MltTable) && LeavesOnAlone(SpellcheckTable)
    ensures LeavesOnAlone(SuggestTable) && LeavesOnAlone(FacetTable) && LeavesOnAlone(GroupTable)
    ensures LeavesOnAlone(HlTable) && LeavesOnAlone(SpatialTable)
  {
  }
}
