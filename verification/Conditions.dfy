/** Setting one condition of a status, and comparing statuses without their transition times. */
module Conditions {
  import opened Desire

  /** Two conditions that differ at most in LastTransitionTime. */
  predicate SameOutcome(a: Condition, b: Condition) {
    a.(lastTransition := 0) == b.(lastTransition := 0)
  }

  /**
    * The condition list after SetStatusCondition: the first condition of the type is updated in place, or one is
    * appended.
    */
  function SetCondition(cs: seq<Condition>, c: Condition, now: int): seq<Condition> {
    if cs == [] then [c.(lastTransition := now)]
    else if cs[0].ty == c.ty then
      [c.(lastTransition := if cs[0].status == c.status then cs[0].lastTransition else now)] + cs[1..]
    else [cs[0]] + SetCondition(cs[1..], c, now)
  }

  function WithCondition(s: Status, c: Condition, now: int): Status {
    Status(SetCondition(s.conditions, c, now))
  }

  ghost predicate DistinctTypes(cs: seq<Condition>) {
    forall i, j :: 0 <= i < j < |cs| ==> cs[i].ty != cs[j].ty
  }

  ghost predicate Keyed(s: Status) { DistinctTypes(s.conditions) }

  /**
    * Whether each condition of `a` has a counterpart of its type in `b` with the same outcome, and the lengths agree.
    */
  ghost predicate StatusEqual(a: Status, b: Status) {
    && |a.conditions| == |b.conditions|
    && forall i :: 0 <= i < |a.conditions| ==> Matched(a.conditions[i], b)
  }

  predicate Matched(c: Condition, b: Status) {
    var f := FindCondition(b.conditions, c.ty);
    f.Some? && SameOutcome(c, f.value)
  }

  method Equal(a: Status, b: Status) returns (r: bool)
    ensures r == StatusEqual(a, b)
  {
    if |a.conditions| != |b.conditions| { return false; }
    for i := 0 to |a.conditions|
      invariant forall j :: 0 <= j < i ==> Matched(a.conditions[j], b)
    {
      var ac := a.conditions[i];
      var bc := FindCondition(b.conditions, ac.ty);
      if bc.None? { return false; }
      if ac.(lastTransition := 0) != bc.value.(lastTransition := 0) { return false; }
    }
    return true;
  }

  /** When the condition last changed its status: a repeated status keeps the old time. */
  function Transition(cs: seq<Condition>, c: Condition, now: int): int {
    var was := FindCondition(cs, c.ty);
    if was.Some? && was.value.status == c.status then was.value.lastTransition else now
  }

  /** Setting a condition makes it the one found, and leaves every other type's condition as it was. */
  lemma {:induction false} SetThenFind(cs: seq<Condition>, c: Condition, now: int, ty: ConditionType)
    ensures ty == c.ty ==>
              && FindCondition(SetCondition(cs, c, now), ty).Some?
              && SameOutcome(FindCondition(SetCondition(cs, c, now), ty).value, c)
              && FindCondition(SetCondition(cs, c, now), ty).value.lastTransition == Transition(cs, c, now)
    ensures ty != c.ty ==> FindCondition(SetCondition(cs, c, now), ty) == FindCondition(cs, ty)
  {
    if cs == [] {
      assert FindCondition(SetCondition(cs, c, now)[1..], ty).None?;
    } else if cs[0].ty == c.ty {
      assert SetCondition(cs, c, now)[1..] == cs[1..];
    } else {
      SetThenFind(cs[1..], c, now, ty);
      assert SetCondition(cs, c, now)[1..] == SetCondition(cs[1..], c, now);
    }
  }

  lemma {:induction false} SetTypes(cs: seq<Condition>, c: Condition, now: int)
    ensures FindCondition(cs, c.ty).Some? ==>
              |SetCondition(cs, c, now)| == |cs| && forall i :: 0 <= i < |cs| ==>
                SetCondition(cs, c, now)[i].ty == cs[i].ty
    ensures FindCondition(cs, c.ty).None? ==> SetCondition(cs, c, now) == cs + [c.(lastTransition := now)]
  {
    if cs != [] && cs[0].ty != c.ty {
      SetTypes(cs[1..], c, now);
    }
  }

  /** Condition lists keep pairwise distinct types. */
  lemma SetKeepsKeyed(s: Status, c: Condition, now: int)
    requires Keyed(s)
    ensures Keyed(WithCondition(s, c, now))
  {
    SetTypes(s.conditions, c, now);
    if FindCondition(s.conditions, c.ty).None? {
      assert forall i :: 0 <= i < |s.conditions| ==> s.conditions[i] in s.conditions;
    }
  }

  lemma {:induction false} FindAt(cs: seq<Condition>, i: nat)
    requires DistinctTypes(cs) && i < |cs|
    ensures FindCondition(cs, cs[i].ty) == Some(cs[i])
  {
    if i > 0 {
      assert cs[0].ty != cs[i].ty;
      FindAt(cs[1..], i - 1);
    }
  }

  // --------------------------------------------------- an equivalence on keyed lists

  /** Comparing a status with itself succeeds exactly when its same-typed conditions all agree. */
  lemma ReflexiveExactlyWhen(s: Status)
    ensures StatusEqual(s, s) <==>
              forall c, d :: c in s.conditions && d in s.conditions && c.ty == d.ty ==> SameOutcome(c, d)
  {
    if StatusEqual(s, s) {
      forall c, d | c in s.conditions && d in s.conditions && c.ty == d.ty
        ensures SameOutcome(c, d)
      {
        assert Matched(c, s) && Matched(d, s);
      }
    }
  }

  function Types(cs: seq<Condition>): set<ConditionType> {
    set i | 0 <= i < |cs| :: cs[i].ty
  }

  lemma {:induction false} TypesCount(cs: seq<Condition>)
    requires DistinctTypes(cs)
    ensures |Types(cs)| == |cs|
  {
    if cs == [] {
      assert Types(cs) == {};
    } else {
      var n := |cs| - 1;
      TypesCount(cs[..n]);
      assert Types(cs) == Types(cs[..n]) + {cs[n].ty};
    }
  }

  lemma {:induction false} SubsetOfSameSize<T>(a: set<T>, b: set<T>)
    requires a <= b && |a| == |b|
    ensures a == b
  {
    if a != {} {
      var x :| x in a;
      SubsetOfSameSize(a - {x}, b - {x});
    } else {
      assert b == {};
    }
  }

  lemma EqualIsSymmetric(a: Status, b: Status)
    requires Keyed(a) && Keyed(b) && StatusEqual(a, b)
    ensures StatusEqual(b, a)
  {
    var x, y := a.conditions, b.conditions;
    forall t | t in Types(x)
      ensures t in Types(y)
    {
      var i :| 0 <= i < |x| && x[i].ty == t;
      assert Matched(x[i], b);
      var j :| 0 <= j < |y| && y[j] == FindCondition(y, t).value;
    }
    TypesCount(x);
    TypesCount(y);
    SubsetOfSameSize(Types(x), Types(y));
    forall j | 0 <= j < |y|
      ensures Matched(y[j], a)
    {
      assert y[j].ty in Types(x);
      var i :| 0 <= i < |x| && x[i].ty == y[j].ty;
      assert Matched(x[i], b);
      FindAt(x, i);
      FindAt(y, j);
    }
  }

  lemma EqualIsTransitive(a: Status, b: Status, c: Status)
    requires StatusEqual(a, b) && StatusEqual(b, c)
    ensures StatusEqual(a, c)
  {
    forall i | 0 <= i < |a.conditions|
      ensures Matched(a.conditions[i], c)
    {
      assert Matched(a.conditions[i], b);
      var f := FindCondition(b.conditions, a.conditions[i].ty).value;
      var j :| 0 <= j < |b.conditions| && b.conditions[j] == f;
      assert Matched(b.conditions[j], c);
    }
  }

  /** On lists with distinct types, status equality is an equivalence relation. */
  lemma EqualIsEquivalence(a: Status, b: Status, c: Status)
    requires Keyed(a) && Keyed(b) && Keyed(c)
    ensures StatusEqual(a, a)
    ensures StatusEqual(a, b) ==> StatusEqual(b, a)
    ensures StatusEqual(a, b) && StatusEqual(b, c) ==> StatusEqual(a, c)
  {
    forall i | 0 <= i < |a.conditions|
      ensures Matched(a.conditions[i], a)
    {
      FindAt(a.conditions, i);
    }
    if StatusEqual(a, b) {
      EqualIsSymmetric(a, b);
      if StatusEqual(b, c) {
        EqualIsTransitive(a, b, c);
      }
    }
  }

  /**
    * A status is unchanged by setting a condition, as the comparison sees it, exactly when it already reports that
    * outcome; so the same outcome a second time is never a difference, whenever it is set.
    */
  lemma SettingIsNoopExactlyWhen(s: Status, c: Condition, now: int)
    requires Keyed(s)
    ensures StatusEqual(WithCondition(s, c, now), s) <==> Matched(c, s)
  {
    var s' := WithCondition(s, c, now);
    SetTypes(s.conditions, c, now);
    SetKeepsKeyed(s, c, now);
    SetThenFind(s.conditions, c, now, c.ty);
    if Matched(c, s) {
      forall i | 0 <= i < |s'.conditions|
        ensures Matched(s'.conditions[i], s)
      {
        FindAt(s'.conditions, i);
        SetThenFind(s.conditions, c, now, s'.conditions[i].ty);
      }
    }
    if StatusEqual(s', s) {
      var f := FindCondition(s'.conditions, c.ty).value;
      var i :| 0 <= i < |s'.conditions| && s'.conditions[i] == f;
      assert Matched(s'.conditions[i], s);
    }
  }

  lemma SettingTwice(s: Status, c: Condition, now: int, later: int)
    requires Keyed(s)
    ensures StatusEqual(WithCondition(WithCondition(s, c, now), c, later), WithCondition(s, c, now))
  {
    SetKeepsKeyed(s, c, now);
    SetThenFind(s.conditions, c, now, c.ty);
    SettingIsNoopExactlyWhen(WithCondition(s, c, now), c, later);
  }
}
