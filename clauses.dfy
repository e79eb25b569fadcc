/**
 * The values of the `q`, `sort`, `fq` and `addParams` fragments. Each is built from an object
 * argument; each comes with the plain text it percent-encodes, which is what Solr reads after
 * decoding the query string.
 */
module Clauses {
  import opened Wrappers
  import opened Strings
  import opened Uri
  import opened QueryString
  import opened JsValues

  /** No key occurs twice. */
  predicate UniqueKeys(fields: seq<(string, string)>)
  {
    forall i, j :: 0 <= i < j < |fields| ==> fields[i].0 != fields[j].0
  }

  /** A plain object with string values: its (distinct) keys and values in enumeration order. */
  type Fields = f: seq<(string, string)> | UniqueKeys(f)

  /** `obj[key]`, `None` where `obj` has no such key. */
  function Lookup(fields: seq<(string, string)>, key: string): (r: Option<string>)
    ensures r.None? <==> forall i :: 0 <= i < |fields| ==> fields[i].0 != key
    ensures r.Some? ==> (key, r.value) in fields
  {
    if fields == [] then None
    else if fields[0].0 == key then Some(fields[0].1)
    else Lookup(fields[1..], key)
  }

  /** `delete obj[key]`: every other entry stays, in its order. */
  function Delete(fields: Fields, key: string): (r: Fields)
    ensures forall p :: p in r <==> p in fields && p.0 != key
    ensures Lookup(fields, key).None? ==> r == fields
    ensures Lookup(fields, key).Some? ==> |r| == |fields| - 1
  {
    if fields == [] then []
    else
      var tail: Fields := fields[1..];
      var rest := Delete(tail, key);
      if fields[0].0 == key then
        assert Lookup(tail, key).None?;
        rest
      else
        assert forall p :: p in rest ==> p.0 != fields[0].0;
        [fields[0]] + rest
  }

  /** `delete obj[key]` cuts the entry with that key out where it stands; the others keep their order. */
  lemma {:induction false} DeleteAt(fields: Fields, key: string, k: nat)
    requires k < |fields| && fields[k].0 == key
    ensures Delete(fields, key) == fields[..k] + fields[k + 1..]
  {
    if k == 0 {
      DeleteFirst(fields, key);
      assert fields[..0] + fields[1..] == fields[1..];
    } else {
      var tail: Fields := fields[1..];
      assert tail[k - 1] == fields[k];
      DeleteAt(tail, key, k - 1);
      DeleteKeeps(fields, key);
      ConsSplice(fields, k);
    }
  }

  /** Cutting index `k > 0` out of a list is keeping its head and cutting `k - 1` out of its tail. */
  lemma ConsSplice<T>(xs: seq<T>, k: nat)
    requires 0 < k < |xs|
    ensures [xs[0]] + (xs[1..][..k - 1] + xs[1..][k..]) == xs[..k] + xs[k + 1..]
  {
    assert [xs[0]] + xs[1..][..k - 1] == xs[..k];
    assert xs[1..][k..] == xs[k + 1..];
  }

  /** Deleting the first entry's key leaves the other entries. */
  lemma DeleteFirst(fields: Fields, key: string)
    requires |fields| > 0 && fields[0].0 == key
    ensures Delete(fields, key) == fields[1..]
  {
    var tail: Fields := fields[1..];
    forall i | 0 <= i < |tail|
      ensures tail[i].0 != key
    {
      assert tail[i] == fields[i + 1];
    }
  }

  /** Deleting another key keeps the first entry in front. */
  lemma DeleteKeeps(fields: Fields, key: string)
    requires |fields| > 0 && fields[0].0 != key
    ensures Delete(fields, key) == [fields[0]] + Delete(fields[1..], key)
  {
  }

  // ---- q ----

  /** The `str` clause, escaped and put after an `AND` when the object has other keys too. */
  function StrClause(fields: Fields): string
  {
    match Lookup(fields, "str")
    case None => ""
    case Some(s) => if |fields| > 1 then "%20AND%20" + EncodeURIComponent(s) else EncodeURIComponent(s)
  }

  /**
   * What `q` writes after `q=`: for a non-empty object, its `key:value` pairs other than `str`
   * joined with an escaped ` AND `, then the `str` clause; for a string, the escaped string;
   * for anything else (an empty object included), match-all `*:*`.
   */
  function QueryValue(arg: Arg<Fields>): string
  {
    match arg
    case Obj(fields) =>
      if |fields| == 0 then "*:*"
      else Stringify(Delete(fields, "str"), "%20AND%20", ":") + StrClause(fields)
    case Str(s) => EncodeURIComponent(s)
    case _ => "*:*"
  }

  /** The plain `str` clause: after ` AND ` when the object has other keys too. */
  function PlainStrClause(fields: Fields): string
  {
    match Lookup(fields, "str")
    case None => ""
    case Some(s) => if |fields| > 1 then " AND " + s else s
  }

  /**
   * The Lucene query a `q` argument stands for: the `key:value` clauses other than `str`
   * joined with ` AND `, then the `str` clause.
   */
  function LuceneQuery(arg: Arg<Fields>): string
  {
    match arg
    case Obj(fields) =>
      if |fields| == 0 then "*:*"
      else Join(PlainPairs(Delete(fields, "str"), ":"), " AND ") + PlainStrClause(fields)
    case Str(s) => s
    case _ => "*:*"
  }

  /** The `q` value percent-encodes the Lucene query, so Solr decodes exactly that query. */
  lemma QueryValueMeaning(arg: Arg<Fields>)
    ensures EncodesTo(QueryValue(arg), LuceneQuery(arg))
    ensures DecodeURIComponent(QueryValue(arg)) == Some(LuceneQuery(arg))
  {
    match arg {
      case Obj(fields) =>
        if |fields| > 0 {
          FieldClausesEncode(fields);
          StrClauseEncodes(fields);
          EncodesToAppend(Stringify(Delete(fields, "str"), "%20AND%20", ":"),
                          Join(PlainPairs(Delete(fields, "str"), ":"), " AND "),
                          StrClause(fields), PlainStrClause(fields));
        } else {
          EncodesToSelf("*:*");
        }
      case Str(s) =>
        EncodeURIComponentEncodes(s);
      case _ =>
        EncodesToSelf("*:*");
    }
    EncodesToDecodes(QueryValue(arg), LuceneQuery(arg));
  }

  lemma FieldClausesEncode(fields: Fields)
    ensures EncodesTo(Stringify(Delete(fields, "str"), "%20AND%20", ":"), Join(PlainPairs(Delete(fields, "str"), ":"), " AND "))
  {
    EncodesSpaceAnd();
    EncodesToSelf(":");
    StringifyEncodes(Delete(fields, "str"), "%20AND%20", " AND ", ":", ":");
  }

  lemma StrClauseEncodes(fields: Fields)
    ensures EncodesTo(StrClause(fields), PlainStrClause(fields))
  {
    match Lookup(fields, "str") {
      case None =>
        EncodesToSelf("");
      case Some(s) =>
        EncodeURIComponentEncodes(s);
        if |fields| > 1 {
          EncodesSpaceAnd();
          EncodesToAppend("%20AND%20", " AND ", EncodeURIComponent(s), s);
        }
    }
  }

  /**
   * With other keys present, the `str` clause comes last, after ` AND `, wherever `str` stood
   * in the object.
   */
  lemma StrClauseLast(fields: Fields, s: string)
    requires Lookup(fields, "str") == Some(s) && |fields| > 1
    ensures LuceneQuery(Obj(fields)) == Join(PlainPairs(Delete(fields, "str"), ":"), " AND ") + " AND " + s
    ensures |Delete(fields, "str")| == |fields| - 1
  {
    assert PlainStrClause(fields) == " AND " + s;
  }

  /** The `q` value never holds `&` or `=`, so the fragment stays one parameter named `q`. */
  lemma QueryValueIsOneParameter(arg: Arg<Fields>)
    ensures '&' !in QueryValue(arg) && '=' !in QueryValue(arg)
    ensures KeyOf("q=" + QueryValue(arg)) == "q"
  {
    QueryValueFree(arg);
    var v := QueryValue(arg);
    KeyOfFragment("q", v);
    assert "q" + "=" + v == "q=" + v;
  }

  lemma QueryValueFree(arg: Arg<Fields>)
    ensures '&' !in QueryValue(arg) && '=' !in QueryValue(arg)
  {
    match arg {
      case Obj(fields) =>
        if |fields| > 0 {
          FieldClausesFree(fields);
          StrClauseFree(fields);
          var t := Stringify(Delete(fields, "str"), "%20AND%20", ":");
          AppendExcludes(t, StrClause(fields), '&');
          AppendExcludes(t, StrClause(fields), '=');
        }
      case Str(s) =>
        EncodedHasNoDelimiters(s);
      case _ =>
    }
  }

  lemma StrClauseFree(fields: Fields)
    ensures '&' !in StrClause(fields) && '=' !in StrClause(fields)
  {
    match Lookup(fields, "str") {
      case None =>
      case Some(s) =>
        EncodedHasNoDelimiters(s);
        if |fields| > 1 {
          AppendExcludes("%20AND%20", EncodeURIComponent(s), '&');
          AppendExcludes("%20AND%20", EncodeURIComponent(s), '=');
        }
    }
  }

  lemma FieldClausesFree(fields: Fields)
    ensures '&' !in Stringify(Delete(fields, "str"), "%20AND%20", ":")
    ensures '=' !in Stringify(Delete(fields, "str"), "%20AND%20", ":")
  {
    var rest := Delete(fields, "str");
    var ps := Pairs(rest, ":");
    forall i | 0 <= i < |ps|
      ensures '&' !in ps[i] && '=' !in ps[i]
    {
      EncodedHasNoDelimiters(rest[i].0);
      EncodedHasNoDelimiters(rest[i].1);
    }
    JoinExcludes(ps, "%20AND%20", '&');
    JoinExcludes(ps, "%20AND%20", '=');
  }

  /** `q({<k>: <v>})` writes the escaped key and value around a bare `:`. */
  lemma QueryPairOnly(k: string, v: string)
    requires k != "str"
    ensures QueryValue(Obj([(k, v)])) == EncodeURIComponent(k) + ":" + EncodeURIComponent(v)
  {
    var single: Fields := [(k, v)];
    assert Lookup(single, "str") == None;
    assert Delete(single, "str") == single;
    StringifyOne((k, v), "%20AND%20", ":");
  }

  /** `q({str: <s>})` writes the escaped `str` alone, with no ` AND `. */
  lemma QueryStrOnly(s: string)
    ensures QueryValue(Obj([("str", s)])) == EncodeURIComponent(s)
  {
    var single: Fields := [("str", s)];
    assert Lookup(single, "str") == Some(s);
    assert Delete(single, "str") == [];
    assert Stringify([], "%20AND%20", ":") == "";
  }

  /** `encodeURIComponent(":")`. */
  lemma ColonEscape()
    ensures EncodeURIComponent(":") == "%3A"
  {
    assert Utf8Char(':') == [58];
    assert PercentBytes([58]) == PercentByte(58) + PercentBytes([]);
  }

  /** Escaping `a:b` where `a` and `b` need no escaping only escapes the colon. */
  lemma EscapeColonPair(a: string, b: string)
    requires forall i :: 0 <= i < |a| ==> IsUnreserved(a[i])
    requires forall i :: 0 <= i < |b| ==> IsUnreserved(b[i])
    ensures EncodeURIComponent(a + ":" + b) == a + "%3A" + b
  {
    EncodeURIComponentAppend(a + ":", b);
    EncodeURIComponentAppend(a, ":");
    ColonEscape();
    EncodeIdentity(a);
    EncodeIdentity(b);
  }

  // ---- sort ----

  /** What `sort` writes after `sort=`: the object's pairs as `field%20direction`, comma-separated. */
  function SortValue(arg: Arg<Fields>): string
  {
    match arg
    case Obj(fields) => Stringify(fields, ",", "%20")
    case _ => ""
  }

  /**
   * The `sort` value encodes `field direction` pairs joined with commas, in the object's order,
   * and splitting it on `,` gives one encoded pair per key.
   */
  lemma SortValueMeaning(fields: Fields)
    ensures EncodesTo(SortValue(Obj(fields)), Join(PlainPairs(fields, " "), ","))
    ensures |fields| >= 1 ==> Split(SortValue(Obj(fields)), ',') == Pairs(fields, "%20")
  {
    EncodesToSelf(",");
    EncodesSpaceAnd();
    StringifyEncodes(fields, ",", ",", "%20", " ");
    if |fields| >= 1 {
      StringifySplits(fields, ',', "%20");
    }
  }

  // ---- fq ----

  /** The filter clause `field:value`, or the bare value when no field is given. */
  function FilterClause(f: JsObject): string
  {
    (if IsDefined(Get(f, "field")) then AsText(Get(f, "field")) + ":" else "") + AsText(Get(f, "value"))
  }

  /** The `fq` fragment of one filter object. */
  function FqFragment(f: JsObject): string
  {
    "fq=" + EncodeURIComponent(FilterClause(f))
  }

  /** The `fq` fragments of a list of filter objects, one per filter, in order. */
  function FqFragments(filters: seq<JsObject>): (r: seq<string>)
    ensures |r| == |filters| && forall k :: 0 <= k < |r| ==> r[k] == FqFragment(filters[k])
  {
    seq(|filters|, k requires 0 <= k < |filters| => FqFragment(filters[k]))
  }

  /** One more filter adds its fragment at the end. */
  lemma FqFragmentsSnoc(filters: seq<JsObject>, i: nat)
    requires i < |filters|
    ensures FqFragments(filters[..i + 1]) == FqFragments(filters[..i]) + [FqFragment(filters[i])]
  {
    assert filters[..i + 1][..i] == filters[..i];
  }

  /** Each filter becomes one parameter named `fq`. */
  lemma FqFragmentIsOneParameter(f: JsObject)
    ensures KeyOf(FqFragment(f)) == "fq" && '&' !in FqFragment(f)
  {
    KeyOfFragment("fq", EncodeURIComponent(FilterClause(f)));
    assert "fq" + "=" + EncodeURIComponent(FilterClause(f)) == FqFragment(f);
    EncodedHasNoDelimiters(FilterClause(f));
  }

  /** The `fq` value decodes to the filter's clause, `field:value` or the bare value. */
  lemma FqFragmentDecodes(f: JsObject)
    ensures DecodeURIComponent(FqFragment(f)[3..]) == Some(FilterClause(f))
    ensures IsDefined(Get(f, "field")) ==> FilterClause(f) == AsText(Get(f, "field")) + ":" + AsText(Get(f, "value"))
    ensures !IsDefined(Get(f, "field")) ==> FilterClause(f) == AsText(Get(f, "value"))
  {
    assert FqFragment(f)[3..] == EncodeURIComponent(FilterClause(f));
    DecodeEncode(FilterClause(f));
  }

  /** `fq({field: <f>, value: <v>})` and `fq({value: <v>})`. */
  lemma FqFieldAndValue(f: string, v: string)
    ensures FqFragment(map["field" := Text(f), "value" := Text(v)]) == "fq=" + EncodeURIComponent(f + ":" + v)
    ensures FqFragment(map["value" := Text(v)]) == "fq=" + EncodeURIComponent(v)
  {
    var m := map["field" := Text(f), "value" := Text(v)];
    assert "field" != "value";
    assert Get(m, "field") == Text(f) && Get(m, "value") == Text(v);
    assert FilterClause(m) == f + ":" + v;
    var n := map["value" := Text(v)];
    assert Get(n, "field") == Undefined && Get(n, "value") == Text(v);
    assert FilterClause(n) == v;
  }

  // ---- addParams ----

  /** The fragment of one `{field, value}` entry: the field as given, the value escaped. */
  function ParamFragment(p: JsObject): string
  {
    AsText(Get(p, "field")) + "=" + EncodeURIComponent(AsText(Get(p, "value")))
  }

  /** The fragments of a list of entries, one per entry, in order. */
  function ParamFragments(entries: seq<JsObject>): (r: seq<string>)
    ensures |r| == |entries| && forall k :: 0 <= k < |r| ==> r[k] == ParamFragment(entries[k])
  {
    seq(|entries|, k requires 0 <= k < |entries| => ParamFragment(entries[k]))
  }

  /** One more entry adds its fragment at the end. */
  lemma ParamFragmentsSnoc(entries: seq<JsObject>, i: nat)
    requires i < |entries|
    ensures ParamFragments(entries[..i + 1]) == ParamFragments(entries[..i]) + [ParamFragment(entries[i])]
  {
    var longer := ParamFragments(entries[..i + 1]);
    var shorter := ParamFragments(entries[..i]);
    forall k | 0 <= k < i + 1
      ensures longer[k] == (shorter + [ParamFragment(entries[i])])[k]
    {
      assert entries[..i + 1][k] == entries[k];
      if k < i {
        assert entries[..i][k] == entries[k];
      }
    }
  }

  /**
   * An entry whose field holds no `=` becomes one parameter named by its field, whose value
   * decodes to the entry's value.
   */
  lemma ParamFragmentMeaning(p: JsObject)
    requires '=' !in AsText(Get(p, "field")) && '&' !in AsText(Get(p, "field"))
    ensures KeyOf(ParamFragment(p)) == AsText(Get(p, "field"))
    ensures '&' !in ParamFragment(p)
    ensures DecodeURIComponent(ParamFragment(p)[|AsText(Get(p, "field"))| + 1..]) == Some(AsText(Get(p, "value")))
  {
    var name := AsText(Get(p, "field"));
    var v := AsText(Get(p, "value"));
    KeyOfFragment(name, EncodeURIComponent(v));
    EncodedHasNoDelimiters(v);
    assert ParamFragment(p)[|name| + 1..] == EncodeURIComponent(v);
    DecodeEncode(v);
  }
}
