/**
 * The delimited-text codec shared by the reader and the writer: splitting a
 * line on a single delimiter character and joining fields with it.  No
 * quoting and no escaping: a field that contains the delimiter cannot be
 * recovered by a split.
 */
module FieldCodec {

  /** The fields joined with `d` between each two of them. */
  function Join(fields: seq<string>, d: char): (r: string)
    requires |fields| > 0
    decreases |fields|
  {
    if |fields| == 1 then fields[0] else fields[0] + [d] + Join(fields[1..], d)
  }

  /** Index of the first occurrence of `d` in `s`. */
  function IndexOf(s: string, d: char): (i: nat)
    requires d in s
    ensures i < |s| && s[i] == d && d !in s[..i]
  {
    if s[0] == d then 0
    else
      var j := IndexOf(s[1..], d);
      assert s[..1 + j] == [s[0]] + s[1..][..j];
      1 + j
  }

  /** The maximal `d`-free pieces of `s`, in order; a string without `d` is one piece. */
  function Split(s: string, d: char): (r: seq<string>)
    ensures |r| > 0
    ensures forall k :: 0 <= k < |r| ==> d !in r[k]
    decreases |s|
  {
    if d !in s then [s]
    else
      var i := IndexOf(s, d);
      [s[..i]] + Split(s[i + 1..], d)
  }

  /** Number of occurrences of `d` in `s`. */
  function Count(s: string, d: char): nat
  {
    if s == [] then 0 else (if s[0] == d then 1 else 0) + Count(s[1..], d)
  }

  predicate DelimiterFree(fields: seq<string>, d: char)
  {
    forall k :: 0 <= k < |fields| ==> d !in fields[k]
  }

  /** Splitting undoes joining, provided no field contains the delimiter. */
  lemma {:induction false} SplitJoin(fields: seq<string>, d: char)
    requires |fields| > 0 && DelimiterFree(fields, d)
    ensures Split(Join(fields, d), d) == fields
    decreases |fields|
  {
    if |fields| > 1 {
      var s := Join(fields, d);
      var rest := Join(fields[1..], d);
      assert s == fields[0] + [d] + rest;
      assert d in s by { assert s[|fields[0]|] == d; }
      IndexOfPrefix(fields[0], d, rest);
      assert s[..|fields[0]|] == fields[0];
      assert s[|fields[0]| + 1..] == rest;
      SplitJoin(fields[1..], d);
    }
  }

  /** Joining undoes splitting, for every string. */
  lemma {:induction false} JoinSplit(s: string, d: char)
    ensures Join(Split(s, d), d) == s
    decreases |s|
  {
    if d in s {
      var i := IndexOf(s, d);
      JoinSplit(s[i + 1..], d);
      assert s == s[..i] + [d] + s[i + 1..];
    }
  }

  lemma {:induction false} IndexOfPrefix(p: string, d: char, rest: string)
    requires d !in p
    ensures d in p + [d] + rest && IndexOf(p + [d] + rest, d) == |p|
    decreases |p|
  {
    var s := p + [d] + rest;
    assert s[|p|] == d;
    if p != [] {
      assert s[1..] == p[1..] + [d] + rest;
      IndexOfPrefix(p[1..], d, rest);
    }
  }

  lemma {:induction false} CountAppend(a: string, b: string, d: char)
    ensures Count(a + b, d) == Count(a, d) + Count(b, d)
    decreases |a|
  {
    if a != [] {
      assert (a + b)[1..] == a[1..] + b;
      CountAppend(a[1..], b, d);
    } else {
      assert a + b == b;
    }
  }

  lemma {:induction false} CountAbsent(s: string, d: char)
    requires d !in s
    ensures Count(s, d) == 0
    decreases |s|
  {
    if s != [] {
      CountAbsent(s[1..], d);
    }
  }

  /** A join of `n` delimiter-free fields holds exactly `n - 1` delimiters. */
  lemma {:induction false} JoinCount(fields: seq<string>, d: char)
    requires |fields| > 0 && DelimiterFree(fields, d)
    ensures Count(Join(fields, d), d) == |fields| - 1
    decreases |fields|
  {
    CountAbsent(fields[0], d);
    if |fields| > 1 {
      JoinCount(fields[1..], d);
      CountAppend(fields[0], [d], d);
      CountAppend(fields[0] + [d], Join(fields[1..], d), d);
    }
  }

  /** Splitting yields one piece more than there are delimiters. */
  lemma {:induction false} SplitCount(s: string, d: char)
    ensures |Split(s, d)| == Count(s, d) + 1
  {
    JoinSplit(s, d);
    JoinCount(Split(s, d), d);
  }

  /** Every character of every piece of a split occurs in the split string. */
  lemma {:induction false} SplitChars(s: string, d: char)
    ensures forall k :: 0 <= k < |Split(s, d)| ==> forall c :: c in Split(s, d)[k] ==> c in s
    decreases |s|
  {
    if d in s {
      var i := IndexOf(s, d);
      SplitChars(s[i + 1..], d);
      assert forall c :: c in s[i + 1..] ==> c in s;
      assert forall c :: c in s[..i] ==> c in s;
    }
  }

  /** A character that is neither the delimiter nor in any field is not in the join. */
  lemma {:induction false} JoinAvoids(fields: seq<string>, d: char, x: char)
    requires |fields| > 0 && x != d
    requires forall k :: 0 <= k < |fields| ==> x !in fields[k]
    ensures x !in Join(fields, d)
    decreases |fields|
  {
    if |fields| > 1 {
      JoinAvoids(fields[1..], d, x);
    }
  }

  /** Joining is the same when built from the left, one field at a time, as a string builder does. */
  lemma {:induction false} JoinSnoc(fields: seq<string>, d: char)
    requires |fields| > 1
    ensures Join(fields, d) == Join(fields[..|fields| - 1], d) + [d] + fields[|fields| - 1]
    decreases |fields|
  {
    var n := |fields|;
    if n > 2 {
      JoinSnoc(fields[1..], d);
      assert fields[1..][..n - 2] == fields[..n - 1][1..];
      var init := Join(fields[..n - 1][1..], d);
      assert fields[0] + [d] + (init + [d] + fields[n - 1]) == (fields[0] + [d] + init) + [d] + fields[n - 1];
    }
  }
}
