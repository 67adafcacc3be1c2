/** The `Gender` enumeration and its text codes. */
module Genders {
  import opened Wrappers

  datatype Gender = Male | Female

  /** The text code of each constant (`getValue`). */
  function Value(g: Gender): (code: string)
    ensures |code| > 0
  {
    match g
    case Male => "male"
    case Female => "female"
  }

  /** The constants in declaration order (`Gender.values()`). */
  const Values: seq<Gender> := [Male, Female]

  /** The first constant of `gs`, in order, whose code equals `code`; None if there is none. */
  function FirstWithValue(gs: seq<Gender>, code: string): (r: Option<Gender>)
    ensures r.Some? ==> r.value in gs && Value(r.value) == code
    ensures r.None? <==> forall k :: 0 <= k < |gs| ==> Value(gs[k]) != code
  {
    if gs == [] then None
    else if Value(gs[0]) == code then Some(gs[0])
    else
      assert forall k :: 1 <= k < |gs| ==> gs[k] == gs[1..][k - 1];
      FirstWithValue(gs[1..], code)
  }

  /** No constant that carries the code stands before the one found. */
  lemma {:induction false} FirstWithValueIsFirst(gs: seq<Gender>, code: string, k: nat)
    requires k < |gs| && Value(gs[k]) == code
    ensures FirstWithValue(gs, code).Some? && FirstWithValue(gs, code).value in gs[..k + 1]
    decreases k
  {
    if Value(gs[0]) != code {
      assert gs[1..][k - 1] == gs[k];
      FirstWithValueIsFirst(gs[1..], code, k - 1);
      assert gs[1..][..k] == gs[1..k + 1];
    }
  }

  /** The constant whose code is `code`, by the search `entryOf` performs. */
  function Lookup(code: string): (r: Option<Gender>)
    ensures r.Some? ==> Value(r.value) == code
    ensures r.None? <==> forall g: Gender :: Value(g) != code
  {
    assert Values[0] == Male && Values[1] == Female;
    FirstWithValue(Values, code)
  }

  /** `Gender.entryOf`: a linear search over the constants in declaration order, returning the first whose code matches. */
  method EntryOf(code: string) returns (r: Option<Gender>)
    ensures r == Lookup(code)
  {
    var i := 0;
    while i < |Values|
      invariant 0 <= i <= |Values|
      invariant FirstWithValue(Values[i..], code) == Lookup(code)
    {
      if Value(Values[i]) == code {
        return Some(Values[i]);
      }
      assert Values[i..][1..] == Values[i + 1..];
      i := i + 1;
    }
    return None;
  }

  /** The codes are pairwise distinct, so `getValue` is injective. */
  lemma ValueInjective(g1: Gender, g2: Gender)
    ensures Value(g1) == Value(g2) ==> g1 == g2
  {
    if g1 != g2 {
      assert Value(g1)[0] != Value(g2)[0];
    }
  }

  /** With distinct codes, the first match is the unique constant carrying the code. */
  lemma {:induction false} FirstWithValueUnique(gs: seq<Gender>, g: Gender)
    requires g in gs
    ensures FirstWithValue(gs, Value(g)) == Some(g)
    decreases |gs|
  {
    if gs[0] != g {
      ValueInjective(gs[0], g);
      assert g in gs[1..] by { var k :| 0 <= k < |gs| && gs[k] == g; assert gs[1..][k - 1] == g; }
      FirstWithValueUnique(gs[1..], g);
    }
  }

  /** Round trip: looking up a constant's code gives back that constant. */
  lemma LookupValue(g: Gender)
    ensures Lookup(Value(g)) == Some(g)
  {
    FirstWithValueUnique(Values, g);
  }

  /** Only the exact codes are recognised; any other text, case variants included, gives None. */
  lemma LookupRecognisesExactly(code: string)
    ensures Lookup(code).Some? <==> code == "male" || code == "female"
    ensures Lookup(code) == Some(Male) <==> code == "male"
    ensures Lookup(code) == Some(Female) <==> code == "female"
  {
    LookupValue(Male);
    LookupValue(Female);
    var r := Lookup(code);
    if r.Some? {
      assert Value(r.value) == code;
      assert r.value == Male || r.value == Female;
    }
  }

  /** Matching is case-sensitive. */
  lemma LookupIsCaseSensitive()
    ensures Lookup("Male").None? && Lookup("FEMALE").None?
  {
    LookupRecognisesExactly("Male");
    LookupRecognisesExactly("FEMALE");
  }
}
