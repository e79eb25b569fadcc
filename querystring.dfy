/**
 * Node's `querystring.stringify(obj, sep, eq)` on an object whose values are strings: for each
 * key in enumeration order, the escaped key, `eq`, and the escaped value, joined with `sep`.
 * The object is an association list in its keys' enumeration order.
 */
module QueryString {
  import opened Strings
  import opened Uri

  /** One `key eq value` item, key and value escaped. */
  function Pair(field: (string, string), eq: string): string
  {
    EncodeURIComponent(field.0) + eq + EncodeURIComponent(field.1)
  }

  function Pairs(fields: seq<(string, string)>, eq: string): (r: seq<string>)
    ensures |r| == |fields|
    ensures forall i :: 0 <= i < |r| ==> r[i] == Pair(fields[i], eq)
  {
    seq(|fields|, i requires 0 <= i < |fields| => Pair(fields[i], eq))
  }

  /** `querystring.stringify(fields, sep, eq)`. */
  function Stringify(fields: seq<(string, string)>, sep: string, eq: string): string
  {
    Join(Pairs(fields, eq), sep)
  }

  /** An object with one key stringifies to its one pair. */
  lemma StringifyOne(field: (string, string), sep: string, eq: string)
    ensures Stringify([field], sep, eq) == Pair(field, eq)
  {
    assert Pairs([field], eq) == [Pair(field, eq)];
  }

  /** The unescaped text a stringified object stands for: `key plainEq value`, joined with `plainSep`. */
  function PlainPairs(fields: seq<(string, string)>, plainEq: string): (r: seq<string>)
    ensures |r| == |fields|
    ensures forall i :: 0 <= i < |r| ==> r[i] == fields[i].0 + plainEq + fields[i].1
  {
    seq(|fields|, i requires 0 <= i < |fields| => fields[i].0 + plainEq + fields[i].1)
  }

  /** Joining encodings with an encoded separator encodes the joined texts. */
  lemma {:induction false} JoinEncodes(ts: seq<string>, ss: seq<string>, sep: string, plainSep: string)
    requires |ts| == |ss|
    requires forall i :: 0 <= i < |ts| ==> EncodesTo(ts[i], ss[i])
    requires EncodesTo(sep, plainSep)
    ensures EncodesTo(Join(ts, sep), Join(ss, plainSep))
  {
    if |ts| == 0 {
      EncodesToSelf("");
    } else if |ts| > 1 {
      JoinEncodes(ts[1..], ss[1..], sep, plainSep);
      EncodesToAppend(ts[0], ss[0], sep, plainSep);
      EncodesToAppend(ts[0] + sep, ss[0] + plainSep, Join(ts[1..], sep), Join(ss[1..], plainSep));
    }
  }

  /** The stringified object percent-encodes its plain `key eq value` listing. */
  lemma StringifyEncodes(fields: seq<(string, string)>, sep: string, plainSep: string, eq: string, plainEq: string)
    requires EncodesTo(sep, plainSep) && EncodesTo(eq, plainEq)
    ensures EncodesTo(Stringify(fields, sep, eq), Join(PlainPairs(fields, plainEq), plainSep))
  {
    var ts := Pairs(fields, eq);
    var ss := PlainPairs(fields, plainEq);
    forall i | 0 <= i < |fields|
      ensures EncodesTo(ts[i], ss[i])
    {
      EncodeURIComponentEncodes(fields[i].0);
      EncodeURIComponentEncodes(fields[i].1);
      EncodesToAppend(EncodeURIComponent(fields[i].0), fields[i].0, eq, plainEq);
      EncodesToAppend(EncodeURIComponent(fields[i].0) + eq, fields[i].0 + plainEq,
                      EncodeURIComponent(fields[i].1), fields[i].1);
    }
    JoinEncodes(ts, ss, sep, plainSep);
  }

  /**
   * With a one-character separator that neither `eq` nor any escaped text can hold, the items
   * of a stringified non-empty object are recovered by splitting on the separator.
   */
  lemma StringifySplits(fields: seq<(string, string)>, sep: char, eq: string)
    requires |fields| >= 1
    requires sep !in eq && (sep == '&' || sep == '=' || sep == ',' || sep == ':')
    ensures Split(Stringify(fields, [sep], eq), sep) == Pairs(fields, eq)
  {
    var ps := Pairs(fields, eq);
    forall i | 0 <= i < |ps|
      ensures sep !in ps[i]
    {
      EncodedHasNoDelimiters(fields[i].0);
      EncodedHasNoDelimiters(fields[i].1);
    }
    SplitJoin(ps, sep);
  }
}
