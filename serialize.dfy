/** `toString`: how the builder's fragments become the query string of a request. */
module Serialization {
  import opened Strings

  /** The response writer asked for when none was given. */
  const DefaultWriter: string := "wt=json"

  /**
   * The serialized query string: the fragments joined with `&`, followed by `&wt=json` unless
   * the text `wt=` already occurs somewhere in the joined fragments.
   */
  function Serialize(params: seq<string>): (r: string)
    ensures Occurs("wt=", r)
    ensures Occurs("wt=", Join(params, "&")) ==> r == Join(params, "&")
    ensures !Occurs("wt=", Join(params, "&")) ==> r == Join(params, "&") + "&" + DefaultWriter
  {
    var joined := Join(params, "&");
    if IndexOf(joined, "wt=") == -1 then
      assert OccursAt("wt=", joined + "&" + DefaultWriter, |joined| + 1);
      joined + "&" + DefaultWriter
    else
      joined
  }

  /** Once a `wt=<v>` fragment has been pushed, the default writer is not added. */
  lemma {:induction false} ExplicitWtSuppressesDefault(params: seq<string>, i: nat, v: string)
    requires i < |params| && params[i] == "wt=" + v
    ensures Serialize(params) == Join(params, "&")
  {
    assert OccursAt("wt=", params[i], 0);
    OccursInJoin(params, i, "&", "wt=");
  }

  /**
   * The default is suppressed by `wt=` occurring anywhere, not only as a fragment's key: the
   * fragment of an added parameter named `newt` is enough.
   */
  lemma {:induction false} WtSubstringSuppressesDefault(params: seq<string>, i: nat, v: string)
    requires i < |params| && params[i] == "newt=" + v
    ensures Serialize(params) == Join(params, "&")
    ensures KeyOf(params[i]) == "newt"
  {
    assert params[i] == "newt" + "=" + v;
    assert params[i][2..5] == "wt=";
    assert OccursAt("wt=", params[i], 2);
    OccursInJoin(params, i, "&", "wt=");
    KeyOfFragment("newt", v);
  }

  /** A text without the letter `w` holds no `wt=`. */
  lemma NoWtWithoutW(s: string)
    requires 'w' !in s
    ensures !Occurs("wt=", s)
  {
    forall i
      ensures !OccursAt("wt=", s, i)
    {
      if 0 <= i && i + 3 <= |s| {
        assert s[i] in s;
        assert s[i..i + 3][0] == s[i];
      }
    }
  }

  /** A builder nothing was pushed to serializes to just the default writer, after a leading `&`. */
  lemma EmptySerializes()
    ensures Serialize([]) == "&wt=json"
  {
    NoWtWithoutW("");
  }

  /**
   * The fragments are recovered from the serialized text by splitting on `&`, when none of them
   * holds an `&`: followed by `wt=json` exactly when the default was added.
   */
  lemma SerializeSplits(params: seq<string>)
    requires |params| >= 1
    requires forall i :: 0 <= i < |params| ==> '&' !in params[i]
    ensures Occurs("wt=", Join(params, "&")) ==> Split(Serialize(params), '&') == params
    ensures !Occurs("wt=", Join(params, "&")) ==> Split(Serialize(params), '&') == params + [DefaultWriter]
  {
    if Occurs("wt=", Join(params, "&")) {
      SplitJoin(params, '&');
    } else {
      assert '&' !in DefaultWriter;
      SplitSnoc(params, DefaultWriter);
    }
  }

  /** Splitting a joined list with one more `&`-free fragment after it. */
  lemma SplitSnoc(params: seq<string>, last: string)
    requires |params| >= 1
    requires forall i :: 0 <= i < |params| ==> '&' !in params[i]
    requires '&' !in last
    ensures Split(Join(params, "&") + "&" + last, '&') == params + [last]
  {
    var ps := params + [last];
    JoinSnoc(params, last, "&");
    forall i | 0 <= i < |ps|
      ensures '&' !in ps[i]
    {
      if i < |params| {
        assert ps[i] == params[i];
      }
    }
    SplitJoin(ps, '&');
  }
}
