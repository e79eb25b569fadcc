/**
 * The JavaScript string and array operations the builder relies on:
 * `Array.prototype.join`, `String.prototype.split` on a one-character
 * separator, and `String.prototype.indexOf`.
 */
module Strings {

  /** `xs.join(sep)`: the elements with `sep` between neighbours; `""` for no elements. */
  function Join(xs: seq<string>, sep: string): string
  {
    if |xs| == 0 then ""
    else if |xs| == 1 then xs[0]
    else xs[0] + sep + Join(xs[1..], sep)
  }

  /** `s.split(c)`: the maximal pieces of `s` not containing `c`; always at least one piece. */
  function Split(s: string, c: char): (r: seq<string>)
    ensures |r| >= 1
    ensures forall i :: 0 <= i < |r| ==> c !in r[i]
    decreases |s|
  {
    if s == [] then [""]
    else
      var rest := Split(s[1..], c);
      if s[0] == c then [""] + rest
      else [[s[0]] + rest[0]] + rest[1..]
  }

  /** `sub` occurs in `s` starting at index `i`. */
  predicate OccursAt(sub: string, s: string, i: int)
  {
    0 <= i && i + |sub| <= |s| && s[i..i + |sub|] == sub
  }

  /** `sub` occurs somewhere in `s`. */
  ghost predicate Occurs(sub: string, s: string)
  {
    exists i :: OccursAt(sub, s, i)
  }

  /** `s.indexOf(sub)`: the first index at which `sub` occurs, or -1 when it does not occur. */
  function IndexOf(s: string, sub: string): (r: int)
    ensures r == -1 <==> !Occurs(sub, s)
    ensures r != -1 ==> OccursAt(sub, s, r) && forall j :: 0 <= j < r ==> !OccursAt(sub, s, j)
  {
    IndexFrom(s, sub, 0)
  }

  /** The first index at or after `from` where `sub` occurs in `s`, or -1. */
  function IndexFrom(s: string, sub: string, from: nat): (r: int)
    requires from <= |s| + 1
    ensures r == -1 <==> forall j :: from <= j ==> !OccursAt(sub, s, j)
    ensures r != -1 ==> from <= r && OccursAt(sub, s, r)
    ensures r != -1 ==> forall j :: from <= j < r ==> !OccursAt(sub, s, j)
    decreases |s| + 1 - from
  {
    if from + |sub| > |s| then -1
    else if s[from..from + |sub|] == sub then assert OccursAt(sub, s, from); from
    else IndexFrom(s, sub, from + 1)
  }

  /** The key of a query-string fragment: the text before its first `=` (all of it when there is none). */
  function KeyOf(f: string): (k: string)
    ensures |k| <= |f| && k == f[..|k|]
    ensures '=' !in k
    ensures |k| < |f| ==> f[|k|] == '='
  {
    if f == [] then ""
    else if f[0] == '=' then ""
    else [f[0]] + KeyOf(f[1..])
  }

  /** The key of `name + "=" + value` is `name` whenever `name` holds no `=`. */
  lemma {:induction false} KeyOfFragment(name: string, value: string)
    requires '=' !in name
    ensures KeyOf(name + "=" + value) == name
  {
    if name != [] {
      assert (name + "=" + value)[1..] == name[1..] + "=" + value;
      KeyOfFragment(name[1..], value);
    } else {
      assert (name + "=" + value)[0] == '=';
    }
  }

  /** Appending one element to a list appends the separator and that element to the joined text. */
  lemma {:induction false} JoinSnoc(xs: seq<string>, x: string, sep: string)
    ensures Join(xs + [x], sep) == if xs == [] then x else Join(xs, sep) + sep + x
  {
    if |xs| > 1 {
      assert (xs + [x])[1..] == xs[1..] + [x];
      JoinSnoc(xs[1..], x, sep);
    } else if |xs| == 1 {
      assert (xs + [x])[1..] == [x];
    }
  }

  /** Every element of a list is a substring of the joined text. */
  lemma {:induction false} OccursInJoin(xs: seq<string>, i: nat, sep: string, sub: string)
    requires i < |xs| && Occurs(sub, xs[i])
    ensures Occurs(sub, Join(xs, sep))
  {
    var k :| OccursAt(sub, xs[i], k);
    if |xs| == 1 {
      assert Join(xs, sep) == xs[0];
    } else if i == 0 {
      var j := Join(xs, sep);
      assert j == xs[0] + (sep + Join(xs[1..], sep));
      assert j[k..k + |sub|] == xs[0][k..k + |sub|];
      assert OccursAt(sub, j, k);
    } else {
      OccursInJoin(xs[1..], i - 1, sep, sub);
      var rest := Join(xs[1..], sep);
      var m :| OccursAt(sub, rest, m);
      var j := Join(xs, sep);
      var off := |xs[0]| + |sep|;
      assert j == (xs[0] + sep) + rest;
      assert j[off + m..off + m + |sub|] == rest[m..m + |sub|];
      assert OccursAt(sub, j, off + m);
    }
  }

  /** Text that holds no `c` splits into itself. */
  lemma {:induction false} SplitPiece(x: string, c: char)
    requires c !in x
    ensures Split(x, c) == [x]
  {
    if x != [] {
      SplitPiece(x[1..], c);
      assert [x[0]] + x[1..] == x;
    }
  }

  /** A `c`-free piece followed by `c` splits off as the first piece. */
  lemma {:induction false} SplitFirst(x: string, c: char, t: string)
    requires c !in x
    ensures Split(x + [c] + t, c) == [x] + Split(t, c)
  {
    if x == [] {
      assert ([c] + t)[1..] == t;
      assert x + [c] + t == [c] + t;
    } else {
      assert (x + [c] + t)[1..] == x[1..] + [c] + t;
      SplitFirst(x[1..], c, t);
      assert [x[0]] + x[1..] == x;
    }
  }

  /** Splitting undoes joining on a separator that no element contains. */
  lemma {:induction false} SplitJoin(xs: seq<string>, c: char)
    requires |xs| >= 1
    requires forall i :: 0 <= i < |xs| ==> c !in xs[i]
    ensures Split(Join(xs, [c]), c) == xs
  {
    if |xs| == 1 {
      SplitPiece(xs[0], c);
    } else {
      SplitJoin(xs[1..], c);
      SplitFirst(xs[0], c, Join(xs[1..], [c]));
      assert [xs[0]] + xs[1..] == xs;
    }
  }

  /** Each element with `prefix` in front. */
  function Prefixed(prefix: string, xs: seq<string>): (r: seq<string>)
    ensures |r| == |xs| && forall i :: 0 <= i < |xs| ==> r[i] == prefix + xs[i]
  {
    seq(|xs|, i requires 0 <= i < |xs| => prefix + xs[i])
  }

  /** Joining with `c + prefix` and putting `prefix` in front is joining the prefixed elements with `c`. */
  lemma {:induction false} JoinPrefixed(xs: seq<string>, c: char, prefix: string)
    requires |xs| >= 1
    ensures prefix + Join(xs, [c] + prefix) == Join(Prefixed(prefix, xs), [c])
  {
    if |xs| > 1 {
      JoinPrefixed(xs[1..], c, prefix);
      assert Prefixed(prefix, xs)[1..] == Prefixed(prefix, xs[1..]);
      assert prefix + (xs[0] + ([c] + prefix) + Join(xs[1..], [c] + prefix))
          == (prefix + xs[0]) + [c] + (prefix + Join(xs[1..], [c] + prefix));
    }
  }

  /** A character in neither the elements nor the separator is not in the joined text. */
  lemma {:induction false} JoinExcludes(xs: seq<string>, sep: string, c: char)
    requires c !in sep && forall i :: 0 <= i < |xs| ==> c !in xs[i]
    ensures c !in Join(xs, sep)
  {
    if |xs| > 1 {
      JoinExcludes(xs[1..], sep, c);
    }
  }

  /** A character in neither part is not in the concatenation. */
  lemma AppendExcludes(a: string, b: string, c: char)
    requires c !in a && c !in b
    ensures c !in a + b
  {
    assert forall x :: x in a + b ==> x in a || x in b;
  }

  /** `[a, b, c].join(sep)`. */
  lemma JoinThree(a: string, b: string, c: string, sep: string)
    ensures Join([a, b, c], sep) == a + sep + b + sep + c
  {
    assert [a, b, c][1..] == [b, c];
    assert [b, c][1..] == [c];
    assert Join([b, c], sep) == b + sep + c;
  }
}
